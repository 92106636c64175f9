# Verified model of the Perun Internet Computer backend

This project models the client side of a Perun payment-channel backend for the Internet Computer and
proves properties of the model. It covers the key store, the bytes that are signed and hashed, the
parsers of the canister's event log, and the steps of the subscription, the adjudicator and the funder.
Four groups of modules follow the program's structure.

**The key store** (`wallet/`).
`WalletFormat` is the wallet file. `Wallet.FsWallet` is the wallet in the form the code has it: a mutable
table of records with key arrays on the heap, and methods that read and write the file.
`WalletMachine` is the same wallet as a state machine over whole runs, with crashes, failed writes,
reloads, and restarts that cannot read the file and replace the wallet; `WalletReissue` says over such runs
when a key is handed out twice. `WalletSession` connects the two: whatever commands a process gives, and
wherever it dies, the class goes through the run in which every command makes its own step.

**Encodings** (`channel/backend.go`, `channel/utils.go`, `connector/serialize.go`).
`Encoding` has the in-place reversal and the nonces; `Backend` the conversions, the signed message and
the preimage of the channel ID.

**Event logs** (`connector/utils.go`, `connector/adjudicator_eventsub.go`, `funder_events.go`).
`Matcher` is the matching of the regular expressions that the parsers use, `EventLog` the printer those
expressions imply, `AdjudicatorEvents` and `FundedEvents` are the parsers, and `Text` the number formats.

**Protocol steps** (`connector/subscribe.go`, `adjudicator.go`, `funder.go`, `connector/services.go`).
`Subscription` is the poller, its consumer and the bounded channel between them, with all interleavings;
`SubscribedLogs` instantiates it with the parser. `Adjudicator` runs the real order of calls against a
canister that may answer anything, and `ObservedWaits` lets it wait on such a subscription. `Funder` is
one funder, `FundingLedger` any number of fundings from any accounts.

## What turned out to be different from what one might expect

* The comment at `wallet/wallet.go:33-34` says that a key is not stored unless it is itself incremented.
  `save` writes every open account (`wallet/wallet.go:149-161`), so a key that was never incremented is
  stored by the next save for any other key. The model follows the code; `WalletMachine.OnDisk` says
  exactly what is in the file.
* An account that was handed out but not used before a crash can be handed out again. This happens exactly
  if a later restart reads a counter from the file that is not above its nonce
  (`ReissuedExactlyAfterOldReload`; `UnusedKeyIsReissued` is the smallest such run). Used keys are never
  handed out again.
* The nonce counter, the use counters and the entry count wrap around. The run properties hold as long as
  none of them is about to (`NoWrap`, a condition on the present table). `NonceWrapOverwrites` and
  `UseCountWrapDeletes` show what happens otherwise; the exact conditions for one step are in
  `OverwritesExactlyOldNonce` and `IncrementCount`, and for the 32-bit entry count in `SaveLoadRoundTrip`.
* When the wallet file cannot be read, for whatever reason, a new wallet is written over it
  (`wallet/wallet.go:84-96`). Accounts in use survive a restart exactly if the file was read or that write
  never opened it (`SurvivesRestart`); otherwise they are lost for good (`LostSeedNeverReturns`).
* The signed message does not determine the balances: `[b, 0]` and `[0, b]` are signed with the same bytes
  (`OwnerOfEverythingIsNotSigned`). `SameMessage` and `MessageDeterminesBalances` say exactly when two
  states share a message.
* Nonces collide exactly when one is the other times a power of 256 (`NonceCollision`), and the channel ID
  then does not tell them apart (`SamePreimage`).
* The pattern for allocations sees only amounts from 1_000 to 999_999, and the parser takes the i-th
  allocation it sees for the i-th record. `ParsePrinted` says what comes out for every log, `ParsedIsSelected`
  exactly when it is right: it always is while no record up to the selected one has other amounts, and
  otherwise it sees nothing, panics, or takes the amounts of a later record
  (`OverlookedAllocationMisleads`).
* Several records that all have version 0 make the parser panic (`ParsePrinted`).
* A subscription is decided by the first log that has events. Once the poller has read it, a wait can still
  succeed exactly if an acceptable event of it is pending (`WaitCanSucceedExactly`); otherwise it only ends
  by cancellation or an error, whatever is logged later. A wait on a closed channel never succeeds.
* Nothing in the signed bytes tells a state from a withdrawal. Up to five participants their lengths differ;
  with six the bytes can be the same (`SameAsWithdrawal`, `SixBalancesReadAsWithdrawal`).
* `checkDisputes` does not look at what the canister says to the conclude call (`channel/adjudicator.go:265`).
* A transfer that the ledger refuses is a panic, not an error (`channel/funder.go:146-147`, `Funder.Fund`).
* Funding totals are added in 64-bit arithmetic, so one more payment can make a funded channel look
  unfunded (`OverflowLooksUnfunded`; `OnePaymentKeepsFunded` says exactly when it does not).

## Assumptions

Ed25519, SHA-512 and the signing key are function parameters. `WalletMachine.CollisionFree` is the one
assumption on key derivation: the keys of the wallets in a run have different addresses
(`CollisionFreeIsPossible` shows that it can be met). Every seed drawn for a new wallet differs from the
earlier ones (`ReplaceStep`, `FreshSeeds`). `Backend.Ideal` is the assumption on a signature scheme, used by
`VerifyAcceptsSigned` and `FullySignedMeaning` only. The canister, the ledger, the clock and cancellation
answer arbitrarily, except that a successful transfer has the ledger's usual effect in `FundingLedger`.

## Model

| member | source | states |
|---|---|---|
| Bytes.LeDigits | channel/utils.go:22-26 | the i-th byte of a number is its i-th digit to base 256, the least significant first |
| WalletFormat.FileLayout | wallet/wallet.go:136-161 | which bytes of the file hold seed, counter, entry count, and the address, nonce and use count of each entry |
| WalletFormat.DecodeEncoded | wallet/wallet.go:100-164 | loading a saved file with anything appended restores seed and counter, and the first n mod 2^32 of the n entries, for every order of writing |
| WalletFormat.SaveLoadRoundTrip | wallet/wallet.go:100-164 | the file has 36 + 44n bytes, and the whole wallet comes back exactly if n < 2^32, for every map iteration order and any appended bytes |
| WalletFormat.DecodeEncodedEntries | wallet/wallet.go:112-127 | the first k written entries, read back, are exactly those entries added to the table |
| WalletFormat.PrefixesFail | wallet/wallet.go:100-129 | a saved file cut at any byte does not load |
| WalletFormat.ShortEntriesFail | wallet/wallet.go:112-125 | too few bytes for the announced number of entries is an error |
| WalletMachine.DiskInvariant | wallet/wallet.go:131-164 | in every state of every run the file is unreadable (and no process lives) or holds the same seed, a counter not above the one in memory, and exactly the open entries below it; entries it misses are unused |
| WalletMachine.UsedKeyIsNeverReissued | wallet/wallet.go:185-214 | over any crashes, reloads and replaced wallets, a new account is never a key that was ever incremented and never replaces an open entry |
| WalletMachine.UsageIsConserved | wallet/wallet.go:244-282 | in every state of every run, memory and readable file count exactly increments minus decrements of each key of their wallet |
| WalletMachine.NoAccountInUseIsLost | wallet/wallet.go:244-282 | a key in use in a living process is in the file with its nonce and use count, so that a restart that reads the file finds it |
| WalletMachine.ReplacedExactlyIfWritten | wallet/wallet.go:89-96 | a restart that cannot read a good file keeps its entries exactly if the replacing write left the file alone |
| WalletMachine.ReplaceKeepsInv | wallet/wallet.go:89-96 | such a restart keeps the invariant, whether its write succeeds, fails or is torn |
| WalletMachine.LostSeedNeverReturns | wallet/wallet.go:78-98 | once the file of a wallet is torn or replaced, no later file and no later process has that wallet's seed again |
| WalletMachine.TornFileStaysDead | wallet/wallet.go:84-96 | an unreadable file stays as it is, and no process starts from it, until a restart on which reading fails altogether replaces it |
| WalletMachine.FailedWriteIsOldOrUnreadable | wallet/wallet.go:163 | a write that failed before its end leaves the old file or an unreadable one, never another wallet |
| WalletMachine.NewKeepsInv | wallet/wallet.go:185-198 | NewAccount keeps the disk invariant without writing, and its address is free |
| WalletMachine.IncrementKeepsInv | wallet/wallet.go:247-259 | IncrementUsage keeps the invariant, whether its write succeeds, fails or is torn |
| WalletMachine.DecrementKeepsInv | wallet/wallet.go:262-282 | DecrementUsage keeps the invariant, whether its write succeeds, fails or is torn |
| WalletMachine.KeyIsPair | wallet/wallet.go:166-181 | a key is the seed, the nonce and the public key of the two together |
| WalletMachine.ReleaseDeletesLast | wallet/wallet.go:273-277 | a release deletes the account exactly with its last use, and touches no other |
| WalletMachine.OverwritesExactlyOldNonce | wallet/wallet.go:189-194 | a new account replaces an open one exactly if the table has an entry with the next nonce, which no table below the counter has |
| WalletMachine.IncrementCount | wallet/wallet.go:254 | an increment adds one use to its key and none to others exactly if the use counter is below its largest value |
| WalletReissue.ReissuedExactlyAfterOldReload | wallet/wallet.go:183-198 | over any run: once a nonce was handed out and the counter is beyond it, it was handed out again in between exactly if some restart in between read a counter not above it from the file |
| WalletReissue.UnusedKeyIsReissued | wallet/wallet.go:183-198 | a run in which an unused account is handed out twice |
| WalletReissue.NonceWrapOverwrites | wallet/wallet.go:196 | at the last nonce two more accounts overwrite the entry with nonce 0 |
| WalletReissue.UseCountWrapDeletes | wallet/wallet.go:254-277 | at the largest use count two uses and one release delete the account |
| Wallet.Clear | wallet/account.go:44-48 | every byte of the key is zero afterwards; nil is left alone |
| Wallet.FsWallet.Load | wallet/wallet.go:100-129 | succeeds exactly if the file decodes, and then holds the decoded wallet with all keys absent |
| Wallet.FsWallet.LoadEntries | wallet/wallet.go:112-127 | the loop reads exactly what the format decodes, into fresh records |
| Wallet.FsWallet.Serialize | wallet/wallet.go:136-161 | the buffer is the encoding of the whole table in some order that lists every entry once |
| Wallet.FsWallet.Save | wallet/wallet.go:131-164 | writes every open account, changes nothing in memory, reports exactly the outcome of the write; without a file it does nothing |
| Wallet.FsWallet.GenAcc | wallet/wallet.go:166-181 | a fresh array of seed, nonce and the public key of the two, and that public key as the address |
| Wallet.FsWallet.NewAccount | wallet/wallet.go:185-198 | a fresh intact key; the durable state becomes that of the machine's new-account step; the heap invariant is kept |
| Wallet.FsWallet.Unlock | wallet/wallet.go:217-231 | an error exactly for an unknown address; otherwise the array held already, or a fresh one with the same key pair whose public half is the address |
| Wallet.FsWallet.LockAll | wallet/wallet.go:234-242 | every key array ever handed out by this wallet is zero, no record keeps one, and the durable state is unchanged |
| Wallet.FsWallet.IncrementUsage | wallet/wallet.go:247-259 | panics on an unknown account without effect; otherwise counts one use and saves, and panics exactly if the save failed |
| Wallet.FsWallet.DecrementUsage | wallet/wallet.go:262-282 | panics on an unknown or unused account without effect; otherwise counts down, wipes and deletes at zero, and saves |
| Wallet.CreateOrLoadFsWallet | wallet/wallet.go:78-98 | loads a readable file unchanged or fails; an unreadable file is replaced by a new wallet unless the seed source or the write fails |
| Wallet.StoredIsWrite | wallet/wallet.go:163 | a write of all bytes, even if it then reports an error, is a saved file; one that was never opened changes nothing, a torn one is unreadable |
| Wallet.StoredIsSaveStep | wallet/wallet.go:131-164 | every outcome of the class's save is a save step of the machine |
| Wallet.RelockRoundTrip | wallet/wallet.go:217-242 | after unlock, lock and unlock the first array is zero and the second is a different one with the original key pair and the requested address |
| WalletSession.Do | wallet/wallet.go:78-282 | every command to a process, including death and each kind of restart, makes the step of the machine that belongs to it |
| WalletSession.SurvivesRestart | wallet/wallet.go:84-96 | a key in use survives a restart exactly if the file was read, no seed could be drawn, or the replacing write never opened the file |
| WalletSession.Play | wallet/wallet.go:36-282 | any program of commands on a new wallet makes the run of the machine in which the k-th step is that of the k-th command; at its end every key in the table is intact and every other array handed out is wiped; it stops early only when a counter is about to wrap |
| Encoding.MinLeMirrorsBe | channel/utils.go:36-42 | the little-endian digits are the library's big-endian digits reversed |
| Encoding.BigToLittleEndianBytes | channel/utils.go:36-42 | the in-place reversal gives the minimal little-endian digits, empty for zero |
| Encoding.MinLeUnique | channel/utils.go:36-42 | that is the only byte string with this value and no trailing zero |
| Encoding.MinLeDigits | channel/utils.go:36-42 | its i-th byte is the i-th digit to base 256 |
| Encoding.WidthBound | channel/utils.go:36-42 | it takes at most n bytes exactly if the value is below 256^n |
| Encoding.BalanceWidth | channel/connector/serialize.go:109-120 | an accepted balance takes at most 4 bytes |
| Encoding.NonceFits | channel/connector/serialize.go:66-78 | a number has at most 32 bytes exactly if it is below 2^256, so the copy never truncates |
| Encoding.NonceValue | channel/connector/serialize.go:66-78 | the array, read big-endian, is the nonce times 256^(32 - its length) |
| Encoding.NonceCollision | channel/connector/serialize.go:66-78 | two nonces in range give the same array exactly if one is the other times a power of 256; never if their lengths agree |
| Backend.MakeBalancesMeaning | channel/connector/serialize.go:94-120 | an allocation converts exactly if all balances are in 0..2^30, and then unchanged |
| Backend.MakeAlloc | channel/connector/serialize.go:94-108 | the loop stops at the first balance that does not convert, with its error |
| Backend.ChainStateMeaning | channel/connector/serialize.go:121-142 | converts exactly the valid states of one asset without locked funds whose balances are in 0..2^30 and whose data can be written, keeping every field; each error has its exact cause, the first bad balance before the data |
| Backend.Sign | channel/backend.go:44-63 | signs exactly the message of the converted state, or fails with the conversion |
| Backend.Verify | channel/backend.go:66-84 | checks against exactly the message that Sign signed |
| Backend.MessageMeaning | channel/backend.go:51-60 | which bytes of the signed message hold channel, version, each balance in its order, and 1 or 0 for a final or other state |
| Backend.SameMessage | channel/backend.go:44-84 | two states share a message exactly if channel, version, final flag and concatenated balance digits agree; the data does not matter |
| Backend.MessageDeterminesBalances | channel/backend.go:53-58 | among states with equal messages, the balances are equal exactly if their byte widths are |
| Backend.OwnerOfEverythingIsNotSigned | channel/backend.go:53-58 | balances [b, 0] and [0, b] are signed with the same bytes |
| Backend.VerifyAcceptsSigned | channel/backend.go:44-84 | with an ideal scheme, Verify accepts a signature made for s on state t exactly if the two share a message in the sense above, so always on s itself |
| Backend.MakeOffIdents | channel/connector/serialize.go:81-92 | the participants unchanged, or an error exactly if one is not 32 bytes long |
| Backend.NewParams | channel/connector/serialize.go:145-169 | succeeds exactly if nonce, participants and application convert; a missing application is all zeros |
| Backend.CalcID | channel/backend.go:90-139 | the first 32 bytes of the hash of the preimage, or a panic exactly if the parameters do not convert |
| Backend.PreimageMeaning | channel/backend.go:90-139 | which bytes of the preimage hold the nonce, the first two participants and the challenge duration |
| Backend.SamePreimage | channel/backend.go:90-139 | two channels hash the same bytes exactly if their first two participants and challenge durations agree and one nonce is the other times a power of 256 |
| Text.DecimalSpelled | channel/connector/utils.go:53-76 | a decimal number has its most significant digit first |
| Text.DecValue | channel/connector/utils.go:53-76 | a printed decimal number is all digits and parses to itself |
| Text.ParsePrintBool | channel/connector/utils.go:58-61 | a printed flag parses to itself |
| Text.StripGroup | channel/connector/utils.go:99-114 | removing the underscores from a grouped number gives its digits back |
| Text.OneUnderscoreRange | channel/connector/adjudicator_eventsub.go:46 | the allocation pattern accepts the grouped form of exactly 1_000 to 999_999 |
| Text.HexRoundTrip | channel/connector/utils.go:116-124 | hexadecimal text decodes to the bytes it was made from |
| Text.HexSpelled | channel/connector/utils.go:116-124 | the upper half of a byte comes first, and either case is read |
| Text.GroupSpelled | channel/connector/adjudicator_eventsub.go:46 | what a grouped number looks like |
| Text.ExtractPrinted | channel/funder_events.go:78-88 | a printed list of byte values is extracted as the bytes |
| Matcher.CutIsPrinted | channel/connector/utils.go:36-41 | greedy and lazy bodies of a match both end where the printed body does, or nowhere if it does not fit the pattern |
| Matcher.PrefixMeetsEquals | channel/connector/utils.go:36-41 | a match can only start where the pattern's '=' falls on the next one of the text |
| Matcher.MatchedField | channel/connector/utils.go:36-41 | a printed field of the pattern contributes its body and the search goes on behind it |
| Matcher.PassedField | channel/connector/utils.go:36-41 | any other field is passed over |
| Matcher.FindAllPrinted | channel/connector/utils.go:36-41 | leftmost non-overlapping search of a printed log finds the bodies of the pattern's own fields, in order, whatever other fields and whatever text without '=' stand between them |
| EventLog.IdSpelled | channel/connector/adjudicator_eventsub.go:43-64 | the pattern for a channel ID and the text printed for it, character by character |
| EventLog.VersionSpelled | channel/connector/adjudicator_eventsub.go:44-65 | the pattern for a version and the text printed for it, character by character |
| EventLog.FlagSpelled | channel/connector/adjudicator_eventsub.go:45-66 | the pattern for a flag and the text printed for it, character by character |
| EventLog.AllocationsSpelled | channel/connector/adjudicator_eventsub.go:46-67 | the pattern for allocations and the text printed for it, character by character |
| EventLog.TimeoutSpelled | channel/connector/adjudicator_eventsub.go:47-68 | the pattern for a timeout and the text printed for it, character by character |
| EventLog.TimestampSpelled | channel/connector/adjudicator_eventsub.go:48-69 | the pattern for a timestamp and the text printed for it, character by character |
| EventLog.PayerSpelled | channel/funder_events.go:39 | the pattern for a payer and the text printed for it |
| EventLog.TotalSpelled | channel/funder_events.go:40 | the pattern for a total and the text printed for it |
| EventLog.NamesDiffer | channel/connector/adjudicator_eventsub.go:42-69 | no field name of the log is a suffix of another one's, so that prefixes cannot be confused |
| EventLog.AdjBodyFits | channel/connector/adjudicator_eventsub.go:42-69 | every printed value fits its pattern, except allocations exactly if out of range |
| EventLog.CommasAreClean | channel/connector/adjudicator_eventsub.go:42-69 | events with any introduction of their own, or none, and commas between their fields are among the logs that the parser results cover |
| EventLog.LogIsParted | channel/connector/adjudicator_eventsub.go:45 | the one pattern that matches any word ends at its marker in every log |
| EventLog.FindAdjField | channel/connector/adjudicator_eventsub.go:40-80 | each pattern finds exactly its field of its kind of record in a mixed log, in order, with its own text before every field |
| EventLog.FindFundField | channel/funder_events.go:39-45 | the same for the three funding patterns |
| AdjudicatorEvents.MaxIndexMeaning | channel/connector/utils.go:81-97 | the index is -1 exactly if every version is 0, otherwise the first index of the greatest one |
| AdjudicatorEvents.FindMaxVersionIndex | channel/connector/utils.go:81-97 | the loop returns the first index of the greatest version, and -1 exactly if one does not parse or all are 0 |
| AdjudicatorEvents.AdjEvent.SetEventData | channel/connector/adjudicator_eventsub.go:145-170 | sets every field of the event and its flag |
| AdjudicatorEvents.ParseAdjEvents | channel/connector/utils.go:29-79 | changes the event exactly as the parse of the match lists says: not at all, to the selected record, with an error, or with an index panic |
| AdjudicatorEvents.ParseEvents | channel/connector/adjudicator_eventsub.go:40-80 | at most one event, none for an all-zero channel |
| AdjudicatorEvents.RecordParses | channel/connector/utils.go:48-78 | looking up the i-th matches gives the i-th record with the allocations of the i-th record in range, and an index panic if there is none |
| AdjudicatorEvents.IdIsFitted | channel/connector/utils.go:116-124 | a longer ID is cut after 32 bytes and a shorter one filled up with zeros |
| AdjudicatorEvents.AllocationsParse | channel/connector/utils.go:99-114 | two printed allocations parse to themselves |
| AdjudicatorEvents.ParsePrinted | channel/connector/utils.go:29-124 | for every mixed log: nothing is seen if no record has allocations in range; otherwise the first record of the greatest version, or the only one, with the allocations at its place among those in range; a panic if there are none there, or several records all have version 0 |
| AdjudicatorEvents.ParsedIsSelected | channel/connector/utils.go:43-78 | the parse is the selected record exactly if the allocations at its place are its own, which they are while every record up to it is in range; if one is not, the parser sees nothing, panics, or takes the allocations of a later record |
| AdjudicatorEvents.MaximumLosesNothing | channel/adjudicator.go:99-110 | whenever an event is set, it passes a version filter exactly if some record of the log does, and no record has a greater version |
| AdjudicatorEvents.SeenExactlyInRange | channel/connector/adjudicator_eventsub.go:46 | a log reads like an empty one exactly if no record has both allocations in 1_000..999_999 |
| AdjudicatorEvents.OverlookedAllocationMisleads | channel/connector/utils.go:63-66 | the smallest logs on which the event combines one record with the allocations of another |
| FundedEvents.ParseEvents | channel/funder_events.go:38-76 | the loop returns all events, or an error exactly if the lists differ in length or a number does not parse |
| FundedEvents.ParsePrintedFundings | channel/funder_events.go:38-88 | from any mixed log the fundings come back in order with address bytes, total and timestamp; an error exactly if a number does not fit 64 bits |
| FundedEvents.PrintedLogShowsFunded | channel/funder.go:107-123 | a poll of a printed log shows the channel funded exactly if all numbers fit 64 bits and what this address paid reaches the amount modulo 2^64 |
| FundedEvents.EvaluateFundedEvents | channel/funder_events.go:98-112 | true exactly if the sum of the matching totals modulo 2^64 reaches the amount |
| FundedEvents.QueryFundingState | channel/funder.go:93-127 | at most maxIters polls; nil exactly if some poll within the limit alone shows enough and none before it was cancelled or unreadable; an unreadable log or a cancellation is the last poll and decides the result |
| FundedEvents.StaysFunded | channel/funder_events.go:98-112 | appending events keeps a funded log funded while the sum does not overflow |
| FundedEvents.OnlyOwnPaymentsCount | channel/funder_events.go:100-104 | a payment counts for its own address and for no other |
| FundedEvents.OnePaymentKeepsFunded | channel/funder_events.go:100-106 | one more payment keeps it funded exactly if the 64-bit sum does not overflow or still reaches the amount after it has |
| FundedEvents.OverflowLooksUnfunded | channel/funder_events.go:100-106 | two payments whose sum overflows make a funded channel look unfunded |
| Subscription.Reachable | channel/connector/subscribe.go:76-184 | the invariant of poller, channel and consumer in every state of every interleaving |
| Subscription.ChannelSafety | channel/connector/subscribe.go:76-128 | the poller never waits for room, never receives its own event, never sends after a close, closes at most once, and sends at most one conclusion followed by at most one dispute |
| Subscription.ErrorsAreReported | channel/connector/subscribe.go:93-114 | failed queries and logs that do not parse are as many as the errors heard, waiting in the channel, or being reported |
| Subscription.NextReturnsOneEvent | channel/connector/subscribe.go:131-179 | Next returns at most one event over the life of a subscription, and nil on every other call; the event comes from the first log that was not quiet |
| Subscription.WaitAcceptsFromFirstLog | channel/adjudicator.go:87-148 | a wait succeeds only with an acceptable event of the first log that was not quiet, never from a closed channel |
| Subscription.WaitIsDecidedOnce | channel/connector/subscribe.go:102-126 | once the poller has read its last log and nothing acceptable is left, the wait never succeeds |
| Subscription.WaitCanSucceedExactly | channel/connector/subscribe.go:102-126 | once the poller has read its last log, the run of a wait can be continued to success exactly if something acceptable is in the channel or still to be sent |
| SubscribedLogs.ParseEventsAll | channel/connector/adjudicator_eventsub.go:82-108 | the concluded events followed by the disputed ones, or the first error |
| SubscribedLogs.ParsedShape | channel/connector/adjudicator_eventsub.go:82-108 | a parsed log holds at most one conclusion, then at most one dispute |
| SubscribedLogs.SnapshotOfPrinted | channel/connector/adjudicator_eventsub.go:82-108 | a printed log shows its selected conclusion and its selected dispute, or crashes the parser exactly if the records of one kind do |
| SubscribedLogs.DisputeSeenInLog | channel/adjudicator.go:87-120 | a printed log holds an event that waitForDisputed accepts exactly if neither kind crashes the parser, a dispute is shown, and some dispute in the log has at least the requested version |
| SubscribedLogs.ConclusionSeenInLog | channel/adjudicator.go:122-148 | a printed log holds an event that waitForConcluded accepts exactly if neither kind crashes the parser and the selected conclusion is shown |
| SubscribedLogs.FoundIsSelected | channel/connector/adjudicator_eventsub.go:82-108 | every event of a printed log is the selected record of its kind |
| SubscribedLogs.SubscriptionIsSafe | channel/connector/subscribe.go:76-128 | channel safety for the parser of this repository, without an assumption on the log: nothing blocks or is sent after a close, one close, and at most one conclusion followed by at most one dispute |
| ObservedWaits.LoopFollowsMachine | channel/adjudicator.go:87-148 | the loops of waitForDisputed and waitForConcluded, run on what a subscription delivers, end as the machine's wait does in every interleaving |
| ObservedWaits.AwaitedIsLogged | channel/adjudicator.go:87-148 | an event that ends such a wait is acceptable and in the first log that was not quiet |
| ObservedWaits.AwaitedIsSelected | channel/adjudicator.go:87-148 | if that log is a printed one, the event is the selected record of the kind waited for |
| ObservedWaits.WithdrawSubscribed | channel/adjudicator.go:401-417 | Withdraw on such a subscription: every event it acted on was logged; it returns nil exactly if the replies and the subscription lead to a conclusion, the party signs and the withdrawal is answered with success |
| Adjudicator.RequestCarriesWhatWasSigned | channel/adjudicator.go:419-449 | every field of the request, and that the signed message and the preimage of the channel ID can be built from it |
| Adjudicator.SameAdjRequest | channel/adjudicator.go:419-449 | two requests look the same to the canister exactly if participants, challenge duration, channel, version, balances of the first asset, final flag and signatures agree and one nonce is the other times a power of 256 |
| Adjudicator.FullySignedTx | channel/adjudicator.go:489-502 | true exactly if there is one signature per participant and Verify accepts each for the state |
| Adjudicator.EveryParticipantSigned | channel/adjudicator.go:489-502 | full means as many signatures as participants, each valid for the message of the state; one missing or spare keeps a final state from being concluded at once |
| Adjudicator.FullySignedMeaning | channel/adjudicator.go:489-502 | with ideal signatures, signatures made for some states count as full exactly if each of those states agrees with the requested one in channel, version, final flag and balance digits |
| Adjudicator.WaitFor | channel/adjudicator.go:87-148 | returns the first acceptable event received before cancellation or an error; a closed channel never ends it |
| Adjudicator.QueryAndMatchEvents | channel/adjudicator.go:188-214 | one query is made; true exactly if the reply is a log whose conclusion has the requested version and channel |
| Adjudicator.IsConcluded | channel/adjudicator.go:150-186 | which calls are made for which replies, and nil exactly if the reply to the conclude call accepts it and the wait sees a conclusion, or refuses it and the log in the next reply has a matching one |
| Adjudicator.AwaitTimeout | channel/adjudicator.go:221-239 | which calls are made, and nil exactly if the reply has a registered version not above the requested one and its timeout elapses |
| Adjudicator.ConcludeRegistered | channel/adjudicator.go:241-288 | which calls are made; nil exactly if the conclude call is answered, the wait sees a conclusion, and the state in the last reply has exactly the requested version; a panic exactly if it has none |
| Adjudicator.CheckDisputes | channel/adjudicator.go:216-289 | which calls are made, and nil exactly if the replies satisfy first the one and then the other |
| Adjudicator.EnsureConcluded | channel/adjudicator.go:314-346 | the replies alone decide which calls are made; nil exactly if the nonce is in range and the replies satisfy the branch for this state |
| Adjudicator.GrantedIsConcluded | channel/adjudicator.go:150-346 | replies satisfy the branch for a state exactly if the calls made show the channel concluded, with 2 or 5 calls |
| Adjudicator.FirstInteraction | channel/adjudicator.go:314-346 | the conclude call comes first exactly for a final state with one valid signature per participant; otherwise the registered state is asked for first |
| Adjudicator.FinalIsConcluded | channel/adjudicator.go:150-186 | for a final, fully signed state: favourable replies are exactly those whose calls show a conclusion accepted and observed, or found in the log |
| Adjudicator.DisputeIsConcluded | channel/adjudicator.go:216-289 | for any other state: favourable replies are exactly those whose calls show a timeout over before the conclude call, a conclusion, and then the requested version |
| Adjudicator.SameWithdrawal | channel/adjudicator.go:348-378 | two withdrawals are signed with the same bytes exactly if channel, participant and receiver agree |
| Adjudicator.SameAsWithdrawal | channel/adjudicator.go:358-364 | the bytes of a state are those of a withdrawal exactly if the channel is the same and version, balance digits and flag read as address and receiver |
| Adjudicator.StateIsNoWithdrawal | channel/adjudicator.go:358-364 | with at most five participants they never are |
| Adjudicator.SixBalancesReadAsWithdrawal | channel/adjudicator.go:358-364 | with six they are for some accepted balances, address and receiver, for every channel, version and flag |
| Adjudicator.Withdraw | channel/adjudicator.go:380-417 | over all replies: a withdrawal by this party is asked for, once and last, exactly if the replies led to a conclusion and the party signs; nil exactly if it is then answered with success |
| Adjudicator.DisputeState | channel/adjudicator.go:451-474 | the dispute call is made for every nonce in range; nil exactly if its reply reports success and the wait sees a dispute of at least this version |
| Adjudicator.Register | channel/adjudicator.go:60-79 | nil exactly if the replies conclude a final state, or dispute any other one; sub-channels are refused without a call |
| Adjudicator.EnsuredMeansConcludeAnswered | channel/adjudicator.go:150-289 | whatever branch ensured the conclusion, a conclude call for exactly this request was answered and directly followed by a conclusion observed or found in the log |
| Adjudicator.LogMatchesSelected | channel/adjudicator.go:188-214 | on a printed log the search matches exactly if the first conclusion of the greatest version has the requested version and channel |
| Funder.TransferIsExact | channel/connector/services.go:135-165 | the 64-bit sum of balance and fee never wraps, and anything out of range is refused |
| Funder.Fund | channel/funder.go:140-228 | the transfer of balance plus fee, the notification with its block, then the deposit of this address and channel, each only after the success of the one before; nothing is called exactly if the request does not fit or the balance is out of range; a panic exactly if the ledger refuses the transfer; nil exactly if all succeed and a poll shows the balance |
| FundingLedger.TransferKeepsBooks | channel/funder.go:140-152 | one transfer takes balance and two fees from its sender and keeps the books |
| FundingLedger.StageKeepsBooks | channel/funder.go:154-176 | notification and deposit, successful or not, move nothing |
| FundingLedger.FundingConserves | channel/funder.go:140-205 | in any interleaving of any fundings, each account is down by balance plus two fees of every channel it paid for, the Perun account up by the sum of balance plus fee, and ledger, Perun and burned fees add up to the same |
| FundingLedger.FundOrder | channel/funder.go:140-205 | the calls of Fund are steps of its order on the ledger; its account is debited exactly if the transfer was made and accepted, and the channel is credited if Fund returns nil |

## Left out

- Ed25519, SHA-512 and principals: foreign libraries, function parameters here. Facts about the channel ID are about its preimage.
- Canister and network: every call has an arbitrary reply. What the canister does with a request is not part of this model.
- go-perun's own validity check of a state is a field of `PerunState`, and a valid state is taken to have a row of balances.
- Marshalling an address never fails in `Adjudicator.MakeParts`, and parameters carry their channel ID.
- Wall-clock time, timestamps in requests, logging, memos and account identifiers.
- Mutexes: a wallet method, and a call under the connector's lock, is one atomic step.
- A source of random bytes that repeats a seed: a new wallet with an old seed would hand out the old keys.
- Other writers: a caller that writes into a key array it was handed, and a second process on the same wallet file.
- A process that recovers from a panic of the wallet: in `WalletMachine` a panic ends the process. The methods of `Wallet.FsWallet` do say what they leave behind in memory.
- NewRandomAccount: the same body as NewAccount, whose contract covers it.
- NewRAMWallet: a wallet with a null file in `Wallet.FsWallet`; the run properties are about wallets with a file.
- Adjudicator.WaitFor: an endless wait is a finite number of rounds that ends in cancellation. Liveness is not modelled.
- Adjudicator.IsConcluded: the subscription is made before the conclude call in the source and is not closed on the early returns; only what it receives is modelled.
- Subscription.ChannelSafety: the query interval and the goroutine's scheduling are not modelled; all interleavings are allowed instead. A failed query comes with an empty text.
- EventLog.FindAdjField: about logs in which nothing but the fields contains a '=', in the order of the patterns, and in which the text after a flag does not continue the word; on arbitrary text `FindAll` is still what the parsers use, without a printer to compare with.
- Index panics on a funding request without balances or participants, and on fewer than two participants in `Backend.CalcID`, are preconditions. The index panics of the log parsers are modelled.
- wire/, wallet/backend.go, channel/asset.go, the test randomizers and the demo client: thin wrappers.
