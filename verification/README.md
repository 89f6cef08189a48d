# Multy-back: a verified model

Multy-back is the back end of a wallet. Most of it is plumbing around HTTP, gRPC and Mongo; this project
models the parts that hold real state machines or arithmetic, and proves what they keep. Mongo collections are
sequences or maps of documents in natural order, `find one` takes the first match, a selector on fields of an
embedded array is met when each value occurs in some element, and the clock, random draws, dial outcomes, map
iteration orders and answers of a node are inputs.

| files | part |
|---|---|
| `Schemas` | the documents that several parts share |
| `Membership`, `Roster`, `MembershipProtocol`, `SeatRemoval`, `MembershipTheorems`, `MembershipReplies`, `OwnerTags`, `MembershipMessages`, `MembershipServer`, `MembershipExamples` | create, join, leave, kick and delete of a multisig, whose every member holds a copy of it; the copies refine one roster per invite code |
| `ConfirmationLedger`, `LedgerTheorems`, `LedgerEntries`, `RequestIds`, `ConfirmationOrder` | submit, confirm, view and decline events on the owners and the confirmed flag of a multisig request |
| `Abi` | decoding of contract calls, against the encoding of the Solidity Contract ABI Specification, sections "Function Selector and Argument Encoding" and "Formal Specification of the Encoding" |
| `MachineIntegers` | signed 64-bit arithmetic |
| `SpendableOutputs`, `OutputTheorems`, `OutputAmounts`, `OutputRaces` | spendable and spent Bitcoin outputs as a two-phase set, resync, balances, and the interleavings of the add and delete streams |
| `Sorting`, `BtcFees`, `EthFees` | the two fee estimators |
| `ConnectionPool` | the socket connection pool, step by step |
| `WalletTable`, `WalletCreation`, `WalletTheorems` | the wallets of a user, and the balance gate of deletion |
| `EthHistory` | saving and rejecting Ether transactions, read off the event log |
| `InviteSearch` | the search for the invite code of a deployed contract |
| `Backoff`, `HumanAmount` | the reconnect back-off, and the shortening of amounts |

Classes (`MongoUserStore`, `SocketServer`, `MultisigHistory`, `OutputCollections`, `WalletServer`,
`TransactionStore`) change state in place as the source does. Their methods are proved against functions or
relations on values, and the theorems are about those.

## Where the code does not do what is wanted of it

Each of these is a theorem with an exact condition, or a concrete input:

- Kick keeps the copies of a multisig in agreement exactly under `KickSafe`: a creator who kicks a stranger from
  a full multisig sets it back to waiting.
- Leave keeps them in agreement exactly when the address sent belongs to the user sent.
- Create checks the invite code as it was sent and stores it in lower case, so an upper-case code can collide.
- After a leave or kick the holders are told the deploy status from before, which is not the stored one exactly when
  the multisig was full.
- Two requests of one contract with the same id (both still in the mempool) share one list of owners at the next
  confirm, and a confirmation can be lost: exactly when somebody is confirmed in one of them who is neither
  confirmed in the first nor its sending owner.
- A request that is delivered again loses its confirmed flag exactly when the delivery is not mined, has no
  readable return value, or the threshold is not 1.
- The confirmed flag depends on the order of the confirms, while the confirmations do not: the order is
  irrelevant exactly when no confirm is mined, or all together miss the threshold, or the mined ones alone reach it.
- An insert that comes after the last remove attempt of the racing delete leaves a spent output spendable, and so
  the collections end disjoint exactly when every such insert is followed by a successful remove.
- The key of an output leaves out its index, so of two outputs of one transaction to one address only the amount
  that is added first is recorded, and a balance can depend on the order.
- Requests whose ids agree in their low 64 bits are confirmed together.
- A connection that is stored after the goroutine of its user has decided to leave can deadlock the whole
  pool: the next disconnect waits for ever, holding the lock.
- The Bitcoin speeds are out of order exactly when the mempool is not empty and the fee at the fast position is
  below 2.
- The Ether speeds are the averages of the slices exactly when the sum of every slice fits 64 bits, and then they
  are ordered. When a sum does not fit they may be out of order, and they may not: there is an example of each.
- Adding an address and deleting a wallet write to the first wallet when the currency, the network and the index
  each occur in some wallet but not together.
- An imported address is compared as it comes but stored in lower case.
- A later multisig with an empty invite code hides an earlier one that has a code. The comment on the search
  speaks of undeployed multisigs; the code looks at all of them, and so does the model.
- An amount whose decimals are zero loses the zeros at the end of its whole part too: ten is shown as one.

## Model

| member | source | states |
|---|---|---|
| `MembershipServer.MongoUserStore.CheckInviteCode` | store/store.go:710-717 | a code is free exactly when nobody holds a copy with it |
| `MembershipServer.MongoUserStore.FindMultisig` | store/store.go:617-648 | a fresh record of the first copy of the first holder, or none |
| `MembershipServer.MongoUserStore.CheckMultisigCurrency` | store/store.go:736-755 | the currency and network are compared with those of the last copy with the code held by the first holder |
| `MembershipServer.MongoUserStore.JoinMultisig` | store/store.go:650-653 | the copy is appended to the user with the id, nobody else changes, an unknown id changes nothing |
| `MembershipServer.MongoUserStore.LeaveMultisig` | store/store.go:655-670 | the first user with the id loses every copy with the code, and nothing else |
| `MembershipServer.MongoUserStore.KickMultisig` | store/store.go:672-688 | the first user with the wallet address loses every copy with the code, and nothing else |
| `MembershipServer.MongoUserStore.DeleteMultisig` | store/store.go:690-708 | every holder loses exactly the copies with the code |
| `MembershipServer.MongoUserStore.UpdateMultisigOwners` | store/store.go:830-837 | the first copy with the code of that user gets the owners and the status |
| `MembershipServer.SocketServer.UpdateUserOwners` | client/socket-io.go:759-796 | the user's copy lists the cleaned owners, tagged with his wallets, in some order of the map |
| `MembershipServer.SocketServer.OnJoinMultisig` | client/socket-io.go:283-385 | the reply for every refusal, the rewritten copies of all holders, and who is notified with which copy |
| `MembershipServer.SocketServer.Admit` | client/socket-io.go:317-381 | the pushed record and the broadcast record are one, so the broadcast carries the new owner |
| `MembershipServer.SocketServer.OnLeaveMultisig` | client/socket-io.go:386-463 | the reply, the copy dropped, the remaining copies without the owner and waiting again, the notices |
| `MembershipServer.SocketServer.OnKickMultisig` | client/socket-io.go:464-545 | the same for a kick by the creator |
| `MembershipServer.SocketServer.OnDeleteMultisig` | client/socket-io.go:546-599 | the reply, all copies removed when the creator asks, the notices |
| `MembershipServer.SocketServer.CreateMultisig` | client/rest.go:503-536 | which creations are accepted, and the copy that is pushed |
| `MembershipProtocol.FoundMatches` | store/store.go:617-648 | whichever copy is found first, it says what the roster of the code says |
| `MembershipProtocol.JoinAcceptedIff` | client/socket-io.go:283-345 | a join is accepted if and only if the code has a roster, the user has no seat in it, the address is his, currency and network agree, and there is room |
| `MembershipReplies.KickAcceptedIff` | client/socket-io.go:464-500 | a kick is accepted if and only if it comes from the creator's seat and somebody has the address to kick; who else sends one is told that he is not the admin |
| `MembershipReplies.JoinRefusedFor` | client/socket-io.go:290-320 | which join is told what, in the order of the checks |
| `MembershipReplies.DeleteAcceptedIff` | client/socket-io.go:546-576 | a delete is accepted if and only if it comes from the creator's seat |
| `MembershipReplies.LeaveAcceptedIff` | client/socket-io.go:386-461 | a leave is accepted if and only if the address has a seat that is not the creator's and the user exists; what the others are told |
| `MembershipReplies.CreateAcceptedIff` | client/rest.go:503-536 | a create is accepted if and only if at least two owners and no more signatures than owners are asked for, the code as sent has no roster, and the user exists |
| `OwnerTags.RewrittenCopyEntries` | client/socket-io.go:759-796 | every entry of a rewritten copy carries the holder's id and the indexes of his last wallet that starts with its address, or no tags and the indexes it came with; nothing else of the copy changes but the status |
| `OwnerTags.JoinedCopyEntries` | client/socket-io.go:317-345 | the joining user's copy: the owners so far without tags, and himself with the wallet he named |
| `OwnerTags.CreatedCopyEntry` | client/utils.go:66-89 | the creator's copy, field by field |
| `MembershipServer.NoticesReachOnline` | client/socket-io.go:355-372 | a message goes to the online users of the list, once each, and to nobody else |
| `MembershipProtocol.JoinRefines` | client/socket-io.go:317-381 | an accepted join adds exactly one seat, not a creator's, to the roster, and every copy follows |
| `SeatRemoval.SeatRemovedRefines` | client/socket-io.go:399-433 | removing an owner together with his copy removes exactly his seat |
| `MembershipTheorems.CopiesAgree` | client/socket-io.go:283-599 | in a consistent state any two copies with one code agree on addresses, creator flags, OwnersCount, currency, network, confirmations and deploy status, and a user has one of them at most |
| `MembershipTheorems.CopyIsSound` | client/socket-io.go:317-381 | owners never exceed OwnersCount, the status is AllJoined exactly when they are as many, no address is listed twice, exactly one is the creator's |
| `MembershipTheorems.HoldersAndOwnersCorrespond` | client/socket-io.go:283-599 | holders and listed addresses are in bijection |
| `MembershipTheorems.LeaveKeepsConsistencyIff` | client/socket-io.go:386-463 | leave keeps consistency if and only if it is refused or the address belongs to the user |
| `MembershipTheorems.LeaveCases` | client/socket-io.go:399-433 | an accepted leave removes the seat, or breaks the agreement, by that same condition |
| `MembershipTheorems.KickKeepsConsistencyIff` | client/socket-io.go:464-545 | kick keeps consistency if and only if it is refused or `KickSafe` holds before |
| `MembershipTheorems.DeleteRefines` | client/socket-io.go:546-599 | delete removes the roster of the code and no other; the code is free afterwards |
| `MembershipTheorems.CreateKeepsConsistencyIff` | client/rest.go:503-536 | create keeps consistency if and only if it is refused, or the lower-cased code is free and the lower-cased address is the user's |
| `MembershipTheorems.StepKeepsConsistencyIff` | client/socket-io.go:283-599 | every event keeps consistency exactly when it is safe |
| `MembershipTheorems.EmptyIsConsistent` | client/socket-io.go:283-599 | users without multisigs are consistent |
| `MembershipTheorems.RunStaysConsistentIff` | client/socket-io.go:283-599 | every state of a run is consistent if and only if every event was safe where it happened |
| `MembershipTheorems.StepLeavesOthersAlone` | client/socket-io.go:283-599 | no event, safe or not, touches another code or anybody's wallets |
| `MembershipMessages.LeaveMessageAgreesIff` | client/socket-io.go:413-447 | after an accepted leave the message lists the addresses of every stored copy, and its status is the stored one if and only if the multisig was not full before |
| `MembershipMessages.KickMessageAgreesIff` | client/socket-io.go:496-534 | the same after an accepted kick |
| `MembershipExamples.KickingAStrangerBreaksAFullMultisig` | client/socket-io.go:478-515 | a concrete kick that breaks a consistent state |
| `MembershipExamples.LeavingForSomeoneElseBreaks` | client/socket-io.go:399-433 | a concrete leave that breaks a consistent state |
| `MembershipExamples.UpperCaseCodeBreaks` | client/rest.go:503-536 | a concrete create that breaks a consistent state |
| `ConfirmationLedger.MultisigHistory.Submit` | eth/utils.go:321-536 | a first delivery stores the request with the owners of the contract and, unless it is mined without a readable return value, the confirmation of its sender; a later one sets the request id and the confirmed flag of the stored record and nothing else that is modelled |
| `ConfirmationLedger.MultisigHistory.Store` | eth/utils.go:337-376 | inserts the record, or sets the request id and the flag of the first record with the hash |
| `ConfirmationLedger.MultisigHistory.Confirm` | eth/utils.go:550-603 | every request with the id gets the new owners, the origin is flagged at the threshold, the confirm itself is stored |
| `ConfirmationLedger.MultisigHistory.ConfirmEntries` | eth/utils.go:563-575 | entries of the sender are replaced by a confirmation, all others are kept, in place |
| `ConfirmationLedger.MultisigHistory.CountConfirmations` | eth/utils.go:592-597 | the number of confirmed entries |
| `ConfirmationLedger.MultisigHistory.ViewTransaction` | store/store.go:757-793 | marks one entry as seen unless it has a confirmation time; on the test network an unknown transaction is a nil dereference |
| `ConfirmationLedger.MultisigHistory.DeclineTransaction` | store/store.go:795-813 | marks one entry as declined |
| `LedgerTheorems.SubmitAt` | eth/utils.go:353-376 | a submit changes only the request id and the flag, and only of the record with its hash |
| `LedgerTheorems.ConfirmAt` | eth/utils.go:538-603 | a confirm gives every request with the id the owners of the first one with the sender confirmed; only the first can get the flag |
| `LedgerEntries.FirstDelivery` | eth/utils.go:385-536 | a request that is not stored yet is appended with the owners of the contract in order, of whom exactly the sender is confirmed unless the submit is mined and unreadable; its id and flag |
| `LedgerEntries.ConfirmIsStored` | eth/utils.go:538-603 | the record that a confirm itself is stored as |
| `LedgerEntries.ConfirmRedelivered` | eth/utils.go:353-376 | what a repeated delivery of a confirm sets in its own record |
| `LedgerEntries.ConfirmWrites` | eth/utils.go:553-575 | a confirm writes transaction, time and status into exactly its sender's entry |
| `LedgerEntries.ViewWrites` | store/store.go:757-793 | a view writes status and time into exactly the entry of the address, unless that has a confirmation time |
| `LedgerEntries.DeclineWrites` | store/store.go:795-813 | a decline writes the status into exactly the entry of the address |
| `LedgerEntries.ConfirmedOverRun` | eth/utils.go:512-589 | over every run that does not overwrite the request, an owner is confirmed if and only if some confirm is his and he declined none after it, or he was confirmed and never declined |
| `LedgerEntries.ConfirmedSinceSubmit` | eth/utils.go:512-589 | from the first delivery on, an owner is confirmed if and only if he submitted readably and never declined, or confirmed and did not decline after that |
| `LedgerTheorems.StepKeepsLedger` | eth/utils.go:321-603 | every event, also a repeated delivery, keeps: confirmed entries have a time and hashes are unique |
| `LedgerTheorems.RunKeepsLedger` | eth/utils.go:321-603 | the same over every run in which a hash names one transaction; request ids may be shared and may change |
| `LedgerTheorems.ViewKeepsConfirmed` | store/store.go:757-793 | a view never demotes a confirmed entry |
| `LedgerTheorems.CountFallsOnlyAtDecline` | eth/utils.go:550-603 | owner addresses never change and the confirmed count falls only at a decline and by at most one, unless a confirm overwrites the record by another request with the id |
| `LedgerTheorems.CountOverRun` | eth/utils.go:550-603 | over every run that never overwrites the request, it loses at most one confirmation per decline |
| `LedgerTheorems.FlagNeedsThreshold` | eth/utils.go:587-603 | a confirm raises a request's flag if and only if the request is the first with the id, the confirm is in a block, and the count then stored reaches the threshold |
| `LedgerTheorems.RedeliveryClearsFlagIff` | eth/utils.go:353-376 | a delivery of a flagged request clears the flag if and only if it is not mined, has no readable return value, or the threshold is not 1; the owners stay |
| `LedgerTheorems.FlagOverRun` | eth/utils.go:321-603 | over every run a request is flagged if and only if some event raised the flag and no later delivery cleared it, or it was flagged and never cleared |
| `RequestIds.StepKeepsUniqueIff` | eth/utils.go:353-418 | an event keeps request ids unique if and only if it is no submit that brings the id of another request |
| `RequestIds.RunKeepsUniqueIff` | eth/utils.go:353-418 | ids are unique in all states of a run if and only if every submit is fresh where it happens |
| `RequestIds.FreshRunLosesOnlyByDecline` | eth/utils.go:353-603 | over a run of fresh submits confirmations are lost to declines only |
| `ConfirmationOrder.ConfirmedAfterAll` | eth/utils.go:553-589 | after any list of confirms an owner of the only request with an id is confirmed if and only if he was before or one of them is his |
| `ConfirmationOrder.ConfirmsCommute` | eth/utils.go:553-589 | lists with the same confirms, in any order and repetition, give the same confirmed owners and the same count |
| `ConfirmationOrder.MinedConfirmsDecideFlag` | eth/utils.go:587-603 | if all confirms of a request are mined and carry the same threshold, it ends flagged if and only if there is one and the final count reaches the threshold |
| `ConfirmationOrder.FlaggedInEveryOrderIff` | eth/utils.go:587-603 | the flag is raised in every order if and only if some confirm is mined and the mined ones alone reach the threshold |
| `ConfirmationOrder.FlaggedInSomeOrderIff` | eth/utils.go:587-603 | the flag is raised in some order, each confirm as often as before, if and only if some confirm is mined and all together reach the threshold |
| `ConfirmationOrder.FlagIgnoresOrderIff` | eth/utils.go:587-603 | all permutations of the confirms agree on the flag if and only if none is mined, or all together miss the threshold, or the mined ones alone reach it |
| `ConfirmationOrder.FlagDependsOnOrder` | eth/utils.go:587-603 | two confirms, one mined, that raise the flag in one order and not in the other |
| `RequestIds.KeepsConfirmationsIff` | eth/utils.go:553-589 | without unique ids: a given confirm keeps all confirmations if and only if whoever is confirmed in a request with the id is confirmed in the first, or is the sender and listed there |
| `RequestIds.ConfirmKeepsConfirmationsIff` | eth/utils.go:553-589 | all confirms of an id do, whoever sends them, if and only if the first request with the id has all the confirmations |
| `RequestIds.SharedRequestIdLosesConfirmation` | eth/utils.go:553-589 | two requests with id 0 for which a confirm loses a confirmation |
| `Abi.SubmitRoundTrip` | eth/utils.go:879-898 | decoding an encoded submitTransaction, in either case of digits, gives back selector, address and decimal value |
| `Abi.DecodedCall` | eth/utils.go:879-898 | digit by digit: the decoded address is 0x and two lower-case digits for each of the 20 bytes, the amount is the decimal text of the value without superfluous zero |
| `Abi.AnyLongText` | eth/utils.go:879-898 | what any text of at least 266 characters without line break is decoded to, also when its second block is no number |
| `Abi.ParsesIff` | eth/utils.go:891-893 | which texts are read as numbers in base 16, and as which number |
| `Abi.MethodOfText` | eth/utils.go:847-856 | the first ten characters, or 0x for a shorter text |
| `Abi.BlocksFromTheLeft` | eth/utils.go:884-887 | a text without line breaks is cut into blocks of 64 from the left, and the rest is dropped |
| `Abi.ShortestSubmit` | eth/utils.go:847-898 | the encoding with empty data decodes to exactly the selector, and nothing shorter decodes |
| `Abi.SubmitDecodingIsInjective` | eth/utils.go:879-898 | two calls decode to the same result if and only if they have the same address and value |
| `Abi.EncodedLayout` | eth/utils.go:879-898 | where the fields of the encoding lie, and its length |
| `Abi.HexRoundTrip` | eth/utils.go:891-893 | the hexadecimal text of a number of a given width denotes the number |
| `Abi.DecimalRoundTrip` | eth/utils.go:891-893 | the decimal text has no superfluous zero and denotes the number |
| `Abi.ConfirmRoundTrip` | eth/utils.go:538-541 | the id a confirm is parsed to is the encoded number if and only if that fits a signed 64-bit word |
| `Abi.Int64IsWord` | eth/utils.go:538-541 | the truncated number is a signed 64-bit word congruent to the number |
| `Abi.ConfirmFindsIff` | eth/utils.go:398-541 | the stored id of a request is truncated as the parsed one is, so a confirm always finds its own request, and finds another one if and only if the low 64 bits of the ids agree |
| `SpendableOutputs.OutputCollections.AddSpendableOut` | btc/handlers.go:258-315 | nothing if spent, else an insert or an update of the status |
| `SpendableOutputs.OutputCollections.DeleteSpendableOut` | btc/handlers.go:337-374 | a tombstone per attempt and at most one removal; one attempt if the key is there, else four |
| `SpendableOutputs.OutputCollections.DeleteHistory` | store/store.go:342-375 | an output or a tombstone is kept if and only if its address is another; no balance of another address changes |
| `SpendableOutputs.OutputCollections.AddressBalance` | client/rest.go:965-976 | the 64-bit sum over the records of the address |
| `OutputTheorems.TwoPhaseSet` | btc/handlers.go:258-374 | after any events the spendable keys are added minus deleted, one record each, disjoint from the spent ones |
| `OutputTheorems.TombstonesOfDelete` | btc/handlers.go:346-372 | one tombstone when the record is found, four when it is not |
| `OutputTheorems.OrderDoesNotMatter` | btc/handlers.go:258-374 | any two lists with the same events end with the same keys |
| `OutputAmounts.AmountIsFirst` | btc/handlers.go:258-374 | a key that is never deleted keeps the amount it had, or else that of its first add |
| `OutputAmounts.RecordOfKey` | btc/handlers.go:267-313 | the record of a new key that is not deleted has the output index and the amount of its first add, and the status of its last |
| `OutputAmounts.OldRecordStays` | btc/handlers.go:267-313 | a record that was there keeps index and amount, and takes the status of the last add |
| `OutputAmounts.AmountIgnoresOrderIff` | btc/handlers.go:258-374 | the recorded amount of a new key is the same for all permutations of the events if and only if all its adds carry one amount |
| `OutputAmounts.BalanceIgnoresOrder` | btc/handlers.go:258-374 | then balances do not depend on order or repetition either |
| `OutputAmounts.SecondAmountIsLost` | btc/handlers.go:267-313 | of two outputs with one key only the first counts in the balance |
| `OutputTheorems.ClearKeepsSound` | store/store.go:342-375 | clearing an address keeps the invariant and leaves no key of the address |
| `OutputTheorems.BalanceAfterResync` | btc/handlers.go:535-609 | after clearing an address and any later events its balance is the sum of the first-added amounts of keys added and not deleted since |
| `OutputTheorems.BalanceNonNegative` | client/rest.go:965-976 | with non-negative amounts a balance is zero if and only if every output on the address is |
| `OutputRaces.AddAloneIsAtomic` | btc/handlers.go:267-313 | steps of the adder that nothing comes between are one atomic add |
| `OutputRaces.DeleteAloneIsAtomic` | btc/handlers.go:346-372 | steps of the deleter that nothing comes between are one atomic delete |
| `OutputRaces.OverlapExplained` | btc/handlers.go:258-374 | in every interleaving a key left behind is spendable and spent, and a key that is both was left behind or is about to be removed |
| `OutputRaces.DisjointIff` | btc/handlers.go:258-374 | when both goroutines rest, the collections are disjoint if and only if every late insert of the schedule is followed by a successful remove |
| `OutputRaces.InsertBeforeLastRemoveIsEnough` | btc/handlers.go:267-372 | if every insert precedes a remove attempt of its delete, the collections end disjoint |
| `OutputRaces.DeleteEnds` | btc/handlers.go:346-372 | eight steps of its own finish a delete among any steps of the adder |
| `OutputRaces.RemoveAfterInsertSucceeds` | btc/handlers.go:267-372 | once the key of a pending remove is spendable, the remove succeeds whatever the adder does before it |
| `OutputRaces.SlowAddLeavesSpentOutput` | btc/handlers.go:267-372 | a schedule after which a spent output is spendable |
| `Sorting.SortDescending` | client/rest.go:1254-1256 | some descending permutation |
| `Sorting.DescendingUnique` | client/rest.go:1254-1256 | descending sequences with the same elements are equal |
| `Sorting.Range` | client/rest.go:1372-1377 | every entry of the map once, in any order |
| `Sorting.SortedFeesAreUnique` | client/rest.go:1370-1379 | the sorted fees depend neither on the order of the map nor on the stability of the sort |
| `Sorting.SortedMempool` | client/rest.go:1370-1379 | the entries of the mempool with their fees in the one possible sorted order |
| `BtcFees.PositionsInRange` | client/rest.go:1263-1298 | for every mempool size all positions are indices, and faster speeds look no further back |
| `BtcFees.GetFeeRate` | client/rest.go:1248-1334 | the speeds are a function of the sorted fees alone |
| `BtcFees.SpeedsOfNothing` | client/rest.go:1284-1289 | the five speeds of an empty mempool |
| `BtcFees.SpeedsOfSmallMempool` | client/rest.go:1263-1283 | up to 2000 transactions: which rank each speed has among the fees, counted and not by position, and the bound 2 |
| `BtcFees.SpeedsOfLargeMempool` | client/rest.go:1289-1312 | the same above 2000 transactions |
| `BtcFees.RankedIff` | client/rest.go:1254-1283 | the fee of a rank is the one at that position of the sorted list, so every rank has one |
| `BtcFees.MediumIsInTheMiddle` | client/rest.go:1263-1334 | at most as many fees as the medium position exceed Medium, and more reach it when it is above Slow |
| `BtcFees.SlowSpeedsAtLeast2` | client/rest.go:1298-1334 | VerySlow, Slow and Medium are at least 2 |
| `BtcFees.OrderedIff` | client/rest.go:1248-1334 | the speeds are non-decreasing if and only if the mempool is empty or the fee at the fast position is at least 2 |
| `BtcFees.VeryFastIsNearTheFront` | client/rest.go:1263-1334 | at most as many entries as the fastest position pay more than VeryFast |
| `EthFees.ComputeAverage` | client/rest.go:1410-1417 | the 64-bit sum divided towards zero |
| `EthFees.AverageBetween` | client/rest.go:1410-1417 | the average of fees whose sum fits lies between the least and the greatest |
| `EthFees.RoundedProductsAreNear` | client/rest.go:1419-1429 | truncated products with a small rounding error are quantiles within one |
| `EthFees.FetchQuantile` | client/rest.go:1419-1429 | the five cuts from the two truncated products |
| `EthFees.SlicesInRange` | client/rest.go:1370-1408 | for every size the slices are non-empty, consecutive and in range |
| `EthFees.SlicesPartition` | client/rest.go:1390-1405 | between 101 and 1399 entries the slices are the whole list |
| `EthFees.FetchMempool` | client/rest.go:1370-1408 | the speeds are a function of the sorted fees and the two quantile products |
| `EthFees.SpeedsOfLargeMempool` | client/rest.go:1381-1388 | above 1400 transactions the five slices, in numbers |
| `EthFees.SpeedsOfMiddleMempool` | client/rest.go:1389-1399 | between 101 and 1399 the five slices, by the two products |
| `EthFees.SpeedsOfOtherMempools` | client/rest.go:1400-1407 | the five fixed speeds of all other mempools |
| `EthFees.TruncatesTowardsZero` | client/rest.go:1410-1417 | an average is rounded towards zero |
| `EthFees.SpeedsOrdered` | client/rest.go:1370-1408 | VeryFast to VerySlow are non-increasing for all quantiles within one, if the sum of every slice fits 64 bits |
| `EthFees.AverageIsTrueIff` | client/rest.go:1410-1417 | an average is the true one if and only if the exact sum fits 64 bits |
| `EthFees.SpeedsAreTrueIff` | client/rest.go:1370-1417 | the five speeds are the true averages of the slices if and only if the sum of every slice fits |
| `EthFees.BoundedSlicesFit` | client/rest.go:1370-1417 | with fees below 2^63/1400 every sum fits |
| `EthFees.OverflowBreaksTheOrder` | client/rest.go:1410-1417 | 101 equal large fees whose speeds are out of order |
| `EthFees.OverflowMayKeepTheOrder` | client/rest.go:1410-1417 | 1401 fees with a sum that does not fit, whose speeds are in order |
| `ConnectionPool.StepKeepsSafeIff` | client/socketio-client.go:106-199 | a step keeps the pool safe if and only if it does not store a connection for a goroutine that is leaving |
| `ConnectionPool.RunIsSafeIff` | client/socket-io.go:105-131 | every state of a run is safe if and only if no registration came too late |
| `ConnectionPool.SafeMeansNoDeadlock` | client/socketio-client.go:106-118 | in a safe state the lock holder is served after at most two steps of the goroutine it waits for, and a registered connection is in exactly one user's connections |
| `ConnectionPool.StuckForEver` | client/socketio-client.go:106-126 | in no continuation of a run does the wait for a goroutine that is leaving or gone end, and nobody connects or disconnects after it |
| `ConnectionPool.TooLateLeadsToDeadlock` | client/socketio-client.go:106-118 | after every registration that comes too late, the disconnect of that connection can follow and leaves the pool stuck |
| `ConnectionPool.DeadlockIsReachable` | client/socketio-client.go:169-199 | a run of nine steps from the empty pool that ends stuck |
| `WalletTable.WalletServer.CreateCustomWallet` | client/rest.go:238-295 | the errors and the appended wallet, internal or imported; other users keep theirs |
| `WalletTable.WalletServer.CheckAddWallet` | store/store.go:844-892 | refused exactly at 20 wallets of Ether or Bitcoin without history in one of their networks |
| `WalletTable.WalletServer.AddWallet` | client/rest.go:463-500 | the limit, then the creation |
| `WalletTable.WalletServer.DiscoverWallets` | client/rest.go:816-852 | never fails for a known user: taken indexes are skipped |
| `WalletTable.WalletServer.AddAddressToWallet` | client/rest.go:383-420 | the errors, and the address pushed to the last match or the first wallet |
| `WalletTable.WalletServer.DeleteWallet` | store/store.go:394-415 | the error, and the mark on the first match or the first wallet |
| `WalletTable.WalletServer.SumBalances` | client/rest.go:1058-1077 | the 64-bit sum over the addresses of all wallets with the index |
| `WalletTable.WalletServer.DeleteBitcoinWallet` | client/rest.go:1039-1098 | deleted or refused by the balance that is seen |
| `WalletCreation.CreatedIff` | client/rest.go:248-284 | an internal creation is accepted if and only if no wallet has the triple; an import if and only if the address is not known and not too short; the errors |
| `WalletCreation.CreatedAppends` | client/rest.go:259-284 | an accepted creation appends one wallet with exactly what was sent, marked if and only if it is internal and called empty |
| `WalletCreation.AddedAppends` | client/rest.go:757-770 | an accepted add appends one wallet that is not marked |
| `WalletCreation.LimitReachedIff` | store/store.go:844-892 | when exactly an add is refused for the limit, in numbers |
| `WalletCreation.DiscoverAppends` | client/rest.go:816-852 | a discovery appends, for every index that had no wallet, the wallet of its first entry, marked if and only if the node called the address empty, and nothing else |
| `WalletCreation.DeletedMarks` | store/store.go:394-415 | an accepted delete marks one wallet and changes nothing else |
| `WalletCreation.UpdateAcceptedIff` | client/rest.go:383-420 | a delete is accepted if and only if currency, network and index all occur; an address also needs a free index in the matching wallets |
| `WalletCreation.AddressAddedAppends` | client/rest.go:383-420 | an accepted address is appended to one wallet and changes nothing else |
| `WalletCreation.MoneyRefusesDelete` | client/rest.go:1079-1098 | a positive balance that does not wrap refuses the delete |
| `WalletTheorems.ServeKeepsTableIff` | client/rest.go:238-420 | a request keeps unique triples and unique address indexes if and only if it does not push a clashing address to the first wallet by mistake |
| `WalletTheorems.RunGrows` | client/rest.go:238-420 | over every run wallets keep position and identity, only gain addresses, and stay marked |
| `WalletTheorems.RunKeepsTableIff` | client/rest.go:238-420 | the table is in order after a run if and only if no request of it clashed |
| `WalletTheorems.DeleteReachesMatchIff` | store/store.go:394-415 | the marked wallet is the one asked for if and only if there is one; else it is the first |
| `WalletTheorems.AddAddressReachesMatchIff` | client/rest.go:383-420 | the same for a pushed address |
| `WalletTheorems.DiscoverIsIdempotent` | client/rest.go:816-852 | discovering the same indexes again changes nothing, whatever names, addresses and answers come with them |
| `WalletTheorems.DiscoverIgnoresLimit` | client/rest.go:816-852 | a discovery adds one wallet for every new index, without limit |
| `WalletTheorems.ImportTwice` | client/rest.go:268-281 | a second import is refused as known if and only if the address is lower case |
| `WalletTheorems.LimitHolds` | store/store.go:844-892 | a run without discoveries and without history never exceeds 20 wallets of a pair |
| `WalletTheorems.BitcoinDeletedIff` | client/rest.go:1057-1098 | with non-negative amounts and a total below 2^64: an existing wallet is marked if and only if every spendable output on the wallets with its index is zero; it is then the wallet asked for |
| `WalletTheorems.MarkedIsEmptyIff` | client/rest.go:1057-1098 | under the same assumptions, for every accepted request: nothing is left on the marked wallet if and only if the wallet asked for exists or nothing is left on the first one |
| `WalletTheorems.MisdirectedDeleteMarksWalletWithMoney` | client/rest.go:1057-1098 | a wallet with money that is marked by a request for another |
| `EthHistory.TransactionStore.SaveTransaction` | eth/utils.go:249-319 | the collection stays a map with one record per (user, hash, wallet), stepped by the save; the other network is untouched |
| `EthHistory.TransactionStore.RejectTransactions` | eth/handlers.go:334-370 | the same for a list of rejections |
| `EthHistory.Collection.Update` | eth/utils.go:276-286 | the first record with the selector gets the five refreshed fields, no other changes |
| `EthHistory.Collection.UpdateAll` | eth/handlers.go:336-351 | exactly the records with the hash and one of the statuses get the new status |
| `EthHistory.RunFollowsLog` | eth/utils.go:249-319 | after any log a record exists if and only if it was saved; it has the immutable fields of the first save, the refreshed ones of the last, and is rejected if and only if a rejection followed |
| `EthHistory.FieldsFollowLog` | eth/utils.go:249-319 | field by field which save a record's values come from, and which statuses a rejection turns into 8 and 9 |
| `EthHistory.SameRecordIff` | eth/utils.go:268-268 | two saves go to one record if and only if user, hash and wallet are the same |
| `EthHistory.OtherStatusesStay` | eth/utils.go:249-319 | each of the statuses 1 to 6 is saved, others are neither saved nor rejected |
| `EthHistory.SavingTwiceChangesNothing` | eth/utils.go:249-319 | saves are idempotent |
| `EthHistory.SavesCommute` | eth/utils.go:249-319 | saves of different keys commute |
| `EthHistory.CollectionFollowsLog` | eth/handlers.go:334-370 | after the rejections of a block every record of the collection is what the whole log of saves and rejections says |
| `EthHistory.RejectionsCommute` | eth/handlers.go:336-370 | rejections are idempotent and commute |
| `EthHistory.SaveAndRejectCommuteIff` | eth/handlers.go:336-370 | a save and a rejection commute if and only if the hashes differ or the save is none |
| `InviteSearch.FetchInviteUndeployed` | eth/utils.go:951-972 | the nested loops with their shared counter and inner break compute the last qualifying code, for every order of the map |
| `InviteSearch.LastUserDecides` | eth/utils.go:951-972 | the code comes from the last user in the order who has a qualifying multisig |
| `InviteSearch.LastMultisigDecides` | eth/utils.go:951-972 | a user's code is that of his last qualifying multisig |
| `InviteSearch.QualifiesIff` | eth/utils.go:951-972 | a multisig qualifies if and only if it has a positive number of owners and at least so many entries at the addresses |
| `InviteSearch.AlwaysFindsIff` | eth/utils.go:951-972 | a code is found in every order if and only if some user qualifies and no user's last qualifying code is empty |
| `InviteSearch.OrderDoesNotMatterIff` | eth/utils.go:951-972 | the result is the same for all orders if and only if all qualifying users have the same last code |
| `InviteSearch.FindsWhenCodesExist` | eth/utils.go:951-972 | if qualifying multisigs have codes, a code is found if and only if one qualifies |
| `InviteSearch.FoundQualifies` | eth/utils.go:951-972 | a code that is found is that of a qualifying multisig |
| `InviteSearch.EmptyCodeHidesCode` | eth/utils.go:951-972 | two multisigs of which the later hides the code of the earlier |
| `Backoff.Reconnect` | client/utils.go:125-155 | dials until one succeeds or the delay waited for is not below the limit; the delays follow the schedule |
| `Backoff.GivesUpSoon` | client/utils.go:125-155 | a schedule that gives up has 8 or 9 delays, none reaches 2.29 times the limit, and they sum to less than 2500 s |
| `Backoff.AllDialsFail` | client/utils.go:125-155 | for every draw 8 or 9 dials; 8 with the largest draws, 9 with the smallest |
| `HumanAmount.Reverse` | client/utils.go:172-178 | the swap loop reverses the text |
| `HumanAmount.ReversedTwice` | client/utils.go:172-178 | reversing is an involution |
| `HumanAmount.ConvertToHuman` | client/utils.go:156-171 | reversing, stripping and reversing back trims the end |
| `HumanAmount.TrimIsLongest` | client/utils.go:156-171 | what is kept is the longest prefix that ends in neither '0' nor '.' |
| `HumanAmount.SameNumberIff` | client/utils.go:156-171 | the number stays the same if and only if a decimal or the last whole digit is nonzero |
| `HumanAmount.RoundAmountsAreChanged` | client/utils.go:156-171 | ten is shown as one and zero as nothing |

## Left out

- Concurrent handlers: every membership handler, wallet request and ledger event is one atomic step; the code
  checks and then acts without a lock. Only the pool and the two output streams are modelled step by step.
- Membership assumes that user ids are unique and that an address belongs to at most one user (`Directory`).
- Importing an existing multisig, contract addresses, and statuses after deployment: leaving or kicking in a
  deployed multisig also resets it to waiting.
- Ids and times of creation and last action, device data and wallet names in broadcasts.
- The check of the wallet count that precedes the creation of a multisig.
- Of the fields that a repeated delivery of a request sets, only the request id and the confirmed flag are kept;
  sender, receiver, amount, status, block, return value and invocation status are not.
- The revoke branch of contract calls, and internal transactions copied to the users of a contract.
- Request ids returned by a node are taken as delivered.
- In the ledger a hash names one transaction, which is delivered again with the same method and contract, and the
  clock is not zero.
- `saveMultyTransaction` for Bitcoin, and the transaction history that a resync rebuilds.
- In `OutputRaces` one goroutine adds and one deletes; a resync that runs beside them is not interleaved.
- Pauses between remove attempts, and failures of the database.
- The two mempool writers, which only insert into and delete from a map.
- Single-precision arithmetic itself: the two quantile products are any integers within one of the exact ones.
- SpeedsOrdered: the sums of the slices fit 64 bits; beyond that the speeds are not the averages, and both orders occur.
- The ticker of the exchange rates and the notifications that take the lock of the pool without waiting.
- Data races on the maps of the pool and on the list of senders: map operations are atomic, and closing a
  connection does not call back.
- Deleting Ether, imported and multisig wallets; renaming wallets; transactions that bring a marked wallet back.
- The request to a node to watch a new address.
- The parts of an Ether transaction about contracts and tokens, and its exchange rates.
- The division by the currency's divider before an amount is shortened, with its rounding to 15 decimals.
- Text is ASCII: lower-casing and reversing look at single characters.
- JWT sessions beyond a table from tokens to users, exchange-rate charts, currency and token tables.
