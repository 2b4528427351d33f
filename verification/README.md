# Verified models of the node's core

This project models the parts of the node whose correctness is least visible from any one
function, and proves what they promise. `dafny verify dfyconfig.toml` checks everything.

| part | files | what is proved |
|---|---|---|
| address manager | `AddrState`, `AddrSteps`, `AddrRuns`, `AddrEffects`, `AddrBounds`, `AddrMan`, `AddrCheck`, `AddrDisk`, `IntSets` | every run of the operations, under all random draws, keeps six redundant structures in agreement; what each operation does to single entries and buckets, exactly; tried entries are never deleted; `Check_` is exact; saving and loading gives the manager back, over any number of sessions |
| BLAKE | `Bits`, `Blake`, `BlakeContext` | buffering, biased counter and both padding shapes compute the specification over the padded message, for any split of the message |
| CubeHash | `CubeHash`, `CubeContext` | rounds without word swaps are the rounds of the specification; the whole absorption and finalization |
| numbers | `Bignum` | the MPI format, 64-bit integers, the compact difficulty encoding |
| Base58 | `Base58` | printer and parser are inverse; exactly which texts are accepted; checksummed data |
| page locks | `PageLocks` | per-page counts over overlapping ranges; when the operating system is called; when the loops end |
| sync-checkpoints | `Checkpoints` | all checkpoints between two resets lie on one branch; no signed checkpoint is lost for want of its block; what a forward move admits; what a reset keeps |
| DIONS | `ModularInverse`, `TxPost`, `AliasIndex`, `AliasChain`, `AliasLedger`, `AliasRuns`, `AliasTitles` | extended Euclid without overflow; the fee fixpoint; index expiry and rescans; what a block leaves in the index; the origin of every alias in an accepted chain, who signed it, and where there is none; whose deed the index holds |

`Options` holds the option type.

## How the model is built

State that the program changes in place is a class whose methods are the program's functions,
with their loops. Each method is proved against a step relation or a specification function on
an immutable view of the state (`View()`, `Current()`), and the
properties over several calls or whole runs are lemmas about those relations.

Inputs the program takes from outside are parameters. Random numbers are an arbitrary sequence
of draws (`Dice`). The clock is a parameter. Bucket hashes, routability, compression functions,
`Hash160` and the four checksum bytes are arbitrary functions. Coin selection, keys, signatures
and sizes in `TxPost`, the outcomes of disk, chain and database in `Checkpoints`, and the
verification of signatures (a function of address, signature and signed parts) in `AliasChain`
are arbitrary and may change from call to call. Integers are
unbounded except where width matters: 32-bit time stamps, the counter words of BLAKE, the bytes
and 64-bit words of `Bignum`, 64-bit addresses in `LoopEnds`, `Int32` in `RelayInverse`, the
unsigned height difference of `filter`.

The model follows the code where it differs from its comments or from what its name suggests:

* `SelectTried` (src/addrman.cpp:125-147) says that it finds the least recently tried of the
  inspected entries, but returns the position that entry had before it was swapped to the front.
  `EvictsTheWrongOne` gives an instance in a full bucket, `EvictsLeastIff` the exact condition on
  the bucket.
* `filter` (src/db.cpp:637) compares an unsigned difference, so it also displaces an entry newer
  than the block. `DisplacesExactly` states when the two tests of expiry differ.
* `ConnectInputs` (src/main.cpp:1699, 1789-1798) does not ask `ConnectInputsPost` about coinbases
  and coinstakes, while `filter` indexes them like others. `ConnectInputsPost`
  (src/dions.cpp:6522-6571) does not look at transactions of another version, and takes the
  operation spent, and the operation itself, from the last script that starts with OP_1 to OP_16.
  So an accepted RELAY need not go back to a SET that opens an ENCRYPTED: `MintedSet`,
  `UnboundRelay` and `MisreadInput` give instances. `Provenance` says exactly when it does: when
  every deed on the way that was not checked nevertheless spends the one before it as its
  operation demands.
* `ResetSyncCheckpoint` (src/checkpoints.cpp:274-292) moves the checkpoint without its message, so
  a node can hold the message of another checkpoint than its own; `StepKeepsMessages` says exactly
  when.
* `ConnectInputsPost` (src/dions.cpp:6712-6716) verifies an ENCRYPTED that spends an alias under
  the third argument of that alias, not under its own owner field (`Signer`).
* `txPost` (src/dions.cpp:397-514) never places the change after the last payment, and does not
  count the value of the alias output it spends.
* The loops of `LockRange` and `UnlockRange` do not end on a range that reaches the last page of
  the address space (`LoopEnds`).

`Timely` names the clock values for which time stamps stay as `Check_` wants them: `Good_` with
a positive time, and `Attempt_` with a non-negative one, whenever the call changes an entry.

## Model

| member | source | states |
|---|---|---|
| `AddrManager.AddrMan.constructor` | src/addrman.h:382-390 | the empty manager satisfies the invariant |
| `AddrManager.AddrMan.Find` | src/addrman.cpp:80-91 | found exactly when the host is indexed and its entry exists, and then with that id |
| `AddrManager.AddrMan.Create` | src/addrman.cpp:93-103 | the whole new state: a fresh id, its entry at the end of `vRandom`, the host pointing to it |
| `AddrManager.AddrMan.SwapRandom` | src/addrman.cpp:105-123 | two slots of `vRandom` exchanged together with both back-positions, nothing else |
| `AddrManager.AddrMan.SelectTried` | src/addrman.cpp:125-147 | only the one bucket is permuted; the returned position is the one drawn for the first least recent success among the inspected entries |
| `AddrManager.AddrMan.ShrinkNew` | src/addrman.cpp:149-201 | one id leaves the bucket: the first terrible one, or without any the oldest of the sampled ones; the code tells which; the invariant is kept, also while a reference is owed |
| `AddrManager.AddrMan.MakeTried` | src/addrman.cpp:203-259 | the entry leaves all new buckets for its tried bucket, evicting one entry back to a new bucket if that is full; the invariant is kept |
| `AddrManager.AddrMan.FindHolder` | src/addrman.cpp:288-300 | the first bucket of the wrapped search that holds the entry; none only if no bucket does |
| `AddrManager.AddrMan.Good` | src/addrman.cpp:261-310 | realizes `GoodStep` and keeps the invariant |
| `AddrManager.AddrMan.Add` | src/addrman.cpp:312-368 | realizes `AddStep` and keeps the invariant |
| `AddrManager.AddrMan.Attempt` | src/addrman.cpp:370-387 | realizes `Attempted` and keeps the invariant |
| `AddrManager.AddrMan.Connected` | src/addrman.cpp:509-527 | realizes `Touched` and keeps the invariant |
| `AddrManager.AddrMan.GetAddr` | src/addrman.cpp:493-507 | exactly min(2500, 23% of size) addresses of known entries with pairwise distinct hosts, namely those at the slots drawn one by one, permuting only `vRandom` and the back-positions |
| `AddrSteps.ShuffleReorders` | src/addrman.cpp:132-138 | any number of shuffle rounds leaves a duplicate-free bucket a permutation of itself |
| `AddrSteps.ShuffleDraws` | src/addrman.cpp:132-138 | the front of a shuffled bucket are the entries drawn one by one, each from those left |
| `AddrSteps.SelectedDrawn` | src/addrman.cpp:125-147 | four entries are drawn, and the position is the one drawn for the first with the least recent success |
| `AddrSteps.EvictsLeastIff` | src/addrman.cpp:125-147 | in a bucket of three or more entries, such as the full ones it is called with, the evicted entry is the least recent of the inspected ones whatever is drawn exactly when all entries had their last success at the same time |
| `AddrSteps.EvictsTheWrongOne` | src/addrman.cpp:125-147 | in any full bucket whose second entry alone is least recent, a draw that evicts the first entry |
| `AddrState.UnrefKeepsInv` | src/addrman.cpp:190-198 | dropping a reference, with deletion by swap-with-last on the last one, keeps the whole invariant |
| `AddrState.PromoteKeepsInv` | src/addrman.cpp:203-228 | moving an entry from its new buckets to a tried bucket with room keeps the whole invariant |
| `AddrState.ExchangeKeepsInv` | src/addrman.cpp:230-259 | replacing an entry of a full tried bucket and sending it back to a new bucket keeps the whole invariant |
| `AddrState.EnrollKeepsInv` | src/addrman.cpp:350-356 | creating an entry leaves exactly one owed reference |
| `AddrState.PlaceKeepsInv` | src/addrman.cpp:358-367 | inserting the owed entry into a bucket with room settles the debt |
| `AddrRuns.AddKeepsInv` | src/addrman.cpp:312-368 | every `Add_` keeps the invariant |
| `AddrRuns.AddEffect` | src/addrman.cpp:312-368 | a routable address is known afterwards; the result is true exactly for a new routable one; tried entries survive |
| `AddrRuns.GoodKeepsInv` | src/addrman.cpp:261-310 | `Good_` keeps the invariant and the set of ids and addresses, and leaves a matching entry in tried |
| `AddrRuns.SomeHolder` | src/addrman.cpp:288-304 | the wrapped search always finds a bucket for an entry that is not tried |
| `AddrRuns.EvictionBucketHasRoom` | src/addrman.cpp:244-252 | the bucket chosen for the evicted entry has room once the promoted entry has left |
| `AddrRuns.MadeTriedKeepsInv` | src/addrman.cpp:203-259 | the invariant, the ids and all other fields are kept; no entry but the promoted one becomes tried |
| `AddrRuns.StepKeepsInv` | src/addrman.cpp:93-387 | each of the five operations keeps the invariant |
| `AddrRuns.RunKeepsInv` | src/addrman.cpp:93-387 | every state of every run, from the constructor's manager or any other valid one, satisfies the invariant: permutation with back-positions, exact inverse index, ids below the count, 1 to 4 references in exactly that many buckets, one tried slot in the hash bucket with count 0, exact counters, buckets of at most 64 |
| `AddrRuns.StepEvolves` | src/addrman.cpp:261-387 | tried entries survive, services never change, and time stamps stay in order exactly when the clock value is timely |
| `AddrRuns.RunKeepsStamps` | src/addrman.cpp:441-460 | with timely clock values, and none refused at the start, no state of a run has a time stamp that `Check_` refuses |
| `AddrEffects.AttemptEffect` | src/addrman.cpp:370-387 | the entry of exactly this service, and no other, gets the time as last try and one more attempt |
| `AddrEffects.ConnectedEffect` | src/addrman.cpp:509-527 | the entry of exactly this service gets the time, when its own is more than 1200 seconds older |
| `AddrEffects.MadeTriedPromotes` | src/addrman.cpp:203-259 | the entry becomes tried and leaves all new buckets; exactly from a full tried bucket one entry is evicted, and the only new bucket that holds it is its own if that has room, else the one the promoted entry came from; all other entries keep their buckets |
| `AddrEffects.GoodPromotes` | src/addrman.cpp:261-310 | the entry of exactly this service is renewed field by field and, if new, promoted out of the first bucket that holds it from the drawn one on |
| `AddrEffects.VictimDropped` | src/addrman.cpp:34-55 | the entry dropped from a full bucket is the first one not worth keeping, or the earliest seen of four drawn |
| `AddrEffects.AttachedJoins` | src/addrman.cpp:358-366 | the entry joins its bucket; exactly from a full bucket one entry is dropped, deleted when this was its last bucket; all others keep their buckets and statistics |
| `AddrEffects.AddKnownExactly` | src/addrman.cpp:321-366 | for a known address: the new time and services, exactly when it gains a bucket, and which |
| `AddrEffects.AddUnknownExactly` | src/addrman.cpp:351-366 | for an unknown address: the new entry, field by field, and the bucket it joins |
| `AddrRuns.NeverDeletedWhileTried` | src/addrman.cpp:149-310 | an entry that is tried throughout a stretch of a run exists at its end, with the same service |
| `AddrBounds.ReferencesConserved` | src/addrman.cpp:203-259 | the reference counts add up to the sizes of the new buckets |
| `AddrBounds.SizeBound` | src/addrman.h:393-396 | `size()` is the sum of the counters and at most 64\*64 + 256\*64 |
| `AddrCheck.ScanTried` | src/addrman.cpp:465-473 | striking slots off a copy succeeds exactly when every tried id has exactly one slot |
| `AddrCheck.ScanNew` | src/addrman.cpp:475-484 | counting down copies of the counts succeeds exactly when every id is in as many buckets as its count says |
| `AddrCheck.CheckEntries` | src/addrman.cpp:441-460 | passes exactly when every entry passes, collecting the tried ids and the counts; a missing address is inserted by the read |
| `AddrCheck.Check` | src/addrman.cpp:434-490 | zero exactly for a consistent state |
| `AddrCheck.SizesMakeShuffled` | src/addrman.cpp:439-457 | equal sizes and correct positions of the ids alone make `vRandom` a bijection |
| `AddrCheck.CheckMakesShuffled` | src/addrman.cpp:434-490 | a result of zero alone makes `vRandom` a bijection with `mapInfo` |
| `AddrCheck.CheckPasses` | src/addrman.cpp:434-490 | the invariant with ordered time stamps is consistent |
| `AddrCheck.CheckExact` | src/addrman.cpp:434-490 | the invariant holds exactly when the state is consistent and the few facts hold that `Check_` does not look at |
| `AddrDisk.Save` | src/addrman.h:279-314 | a valid manager is written as its image: header, new entries by id, tried entries by id, buckets of indices |
| `AddrDisk.Load` | src/addrman.h:315-378 | reading the image of a valid manager gives that manager up to renumbering, valid again, with nothing lost |
| `AddrDisk.SaveAndLoad` | src/addrman.h:279-378 | the round trip |
| `AddrDisk.ReloadedKeepsInv` | src/addrman.h:315-378 | renumbering keeps the whole invariant |
| `AddrDisk.ReloadedStarts` | src/addrman.h:315-378 | a manager read back can start a run, with time stamps in order if they were |
| `AddrDisk.SessionsKeep` | src/addrman.h:279-378 | over any sequence of operations and reloads the invariant holds, and an address tried throughout a stretch is known at its end, with the same service |
| `Blake.FeedConcat` | src/blake.c:800-836 | absorbing two pieces one after the other is absorbing their concatenation |
| `Blake.BlocksCount` | src/blake.c:827-831 | the two counter words with their carry hold the number of message bits absorbed |
| `Blake.BiasedBlock` | src/blake.c:856-866 | after the wrap-around bias, compressing the last block with message bits sees the total bit count, and one without sees zero |
| `Blake.PadByteBits` | src/blake.c:852-855 | the pad byte is the extra bits, a one, and zeros |
| `Blake.TailBits` | src/blake.c:867-885 | the bytes added by closing, in one block or two, are the padding of the specification |
| `Blake.BlakeCorrect` | src/blake.c:839-889 | closing gives the chaining value of the specification over the padded message, every block with its specified counter |
| `BlakeContext.Context.Update` | src/blake.c:800-836 | buffering absorbs exactly the data |
| `BlakeContext.Context.Close` | src/blake.c:838-889 | computes `Closed` of the buffered state |
| `BlakeContext.HashPieces` | src/blake.c:943-994 | for both word sizes and any split into updates the result is that of the specification for the concatenation |
| `Blake.HashUnique` | src/blake.c:838-889 | the specification assigns one value only |
| `CubeHash.RoundEven` | src/cubehash.c:267-364 | a round of the specification, up to where the words are kept |
| `CubeHash.RoundOdd` | src/cubehash.c:366-471 | from that arrangement, a round of the specification with all words back in place |
| `CubeHash.SixteenRounds` | src/cubehash.c:473-532 | sixteen rounds for every unroll setting |
| `CubeContext.Context.Update` | src/cubehash.c:541-576 | all full blocks of the message are absorbed and the rest is buffered |
| `CubeContext.Context.Close` | src/cubehash.c:578-607 | the padded message is absorbed, then the last word is marked after 16 rounds and 160 more follow |
| `Bignum.MpiCanonical` | src/bignum.h:294-319 | the MPI form is canonical and determines the number |
| `Bignum.CanonicalMpi` | src/bignum.h:294-319 | every canonical byte string is the MPI form of its number |
| `Bignum.VchRoundTrip` | src/bignum.h:294-319 | `setvch` undoes `getvch`; `getvch` undoes `setvch` exactly on canonical vectors |
| `Bignum.WriteBytes` | src/bignum.h:184-201 | the shifting loop writes the MPI form, sign byte included |
| `Bignum.SetInt64` | src/bignum.h:165-206 | every 64-bit integer becomes itself, the least one included |
| `Bignum.SetUint64` | src/bignum.h:223-248 | every unsigned 64-bit integer becomes itself |
| `Bignum.GetUint64` | src/bignum.h:208-221 | the magnitude modulo 2^64 |
| `Bignum.CompactRoundTrip` | src/bignum.h:321-344 | decoding the compact form keeps sign, size and three leading bytes, and encodes to the same word again |
| `Bignum.CompactRounds` | src/bignum.h:321-344 | decoding rounds the magnitude down to a multiple of the weight of the third MPI byte |
| `Bignum.CompactMonotone` | src/bignum.h:333-344 | on non-negative numbers the compact word is monotone |
| `Base58.EncodeBase58` | src/base58.h:28-66 | a `1` for every leading zero byte, then the shortest numeral |
| `Base58.DecodeBase58` | src/base58.h:76-120 | accepts exactly the texts that, stripped of outer white space and cut at the first NUL, hold only digits, and gives their bytes |
| `Base58.DecodeEncode` | src/base58.h:28-120 | decoding undoes encoding, for every byte string |
| `Base58.DecodeExact` | src/base58.h:28-120 | a text decodes to some bytes exactly when it is their encoding up to outer white space |
| `Base58.DecodeBase58Check` | src/base58.h:144-161 | accepts exactly the encodings of a payload with its checksum |
| `Base58.EncodedCheckInjective` | src/base58.h:133-140 | a checksummed text determines its payload, whatever the hash |
| `Base58.Base58Data.SetString` | src/base58.h:211-227 | accepts exactly the texts of a version and data, and is reset otherwise |
| `Base58.Base58Data.ToString` | src/base58.h:234-239 | prints the text of the object |
| `Base58.PrintAndParse` | src/base58.h:211-239 | the text of a version and data, stripped, is the text of the same version and data and of no others |
| `PageLocks.TouchedPages` | src/allocators.h:60-63 | the pages from the first to the last byte's are those that a byte of the range lies on |
| `PageLocks.LockedPageManager.LockRange` | src/allocators.h:56-75 | one more live range, with counts and operating system calls still exact |
| `PageLocks.LockedPageManager.UnlockRange` | src/allocators.h:79-99 | one live range less, the assertion holding, counts and calls still exact |
| `PageLocks.LockedPageManager.GetLockedPageCount` | src/allocators.h:102-106 | the number of pages the operating system holds |
| `PageLocks.RunHistory` | src/allocators.h:56-99 | after any matching history a page is held exactly when a live range touches it, its count is the number of those, and calls happened only on first lock and last unlock |
| `PageLocks.LoopEnds` | src/allocators.h:63-74 | with 64-bit wrap-around the loops end exactly when the range does not reach the last page |
| `Checkpoints.SyncCheckpoints.ValidateSyncCheckpoint` | src/checkpoints.cpp:104-144 | true exactly for strict descendants of the checkpoint, also on broken trees |
| `Checkpoints.FlaggedExactly` | src/checkpoints.cpp:114-141 | a hash is flagged invalid exactly when neither block is an ancestor of the other |
| `Checkpoints.SyncCheckpoints.AcceptPendingSyncCheckpoint` | src/checkpoints.cpp:162-203 | the new globals in every outcome; success exactly for a valid pending checkpoint that can be made best and written |
| `Checkpoints.SyncCheckpoints.ProcessSyncCheckpoint` | src/checkpoints.cpp:388-436 | the new globals in every outcome; success exactly for a signed, valid checkpoint that can be made best and written |
| `Checkpoints.SyncCheckpoints.CheckSync` | src/checkpoints.cpp:216-241 | accepts above the checkpoint only its descendants, at its height only itself, below it only known blocks |
| `Checkpoints.StepAdvances` | src/checkpoints.cpp:162-203 | every step but a reset moves the checkpoint only to a descendant, whatever is pending |
| `Checkpoints.SyncCheckpoints.ResetSyncCheckpoint` | src/checkpoints.cpp:257-296 | the new globals in every outcome; success exactly when a known hardened block is in the main chain and is written |
| `Checkpoints.UnknownAdopted` | src/checkpoints.cpp:162-203 | a signed checkpoint on an unknown block, with no other and no reset after it, is adopted with its message once its block has come in as a descendant and chain and database let it |
| `Checkpoints.KnownDecided` | src/checkpoints.cpp:388-436 | a signed checkpoint on a known block is adopted exactly when it strictly descends and clears, flagged exactly when it is unrelated or cannot be made best, and otherwise changes nothing |
| `Checkpoints.PendingDecided` | src/checkpoints.cpp:162-203 | the same for the pending one, which stays pending exactly when it descends and chain or database failed |
| `Checkpoints.ResetDecided` | src/checkpoints.cpp:257-296 | a reset puts the newest hardened block among the pending exactly when it is unknown, and the checkpoint on the highest hardened block of the main chain |
| `Checkpoints.StepKeepsInv` | src/checkpoints.cpp:162-296 | every step, resets included, keeps the invariant of the tree and the checkpoint, and all blocks |
| `Checkpoints.NewestIsHighest` | src/checkpoints.cpp:282-292 | a reset chooses the highest known hardened block of the main chain |
| `Checkpoints.StepKeepsMessages` | src/checkpoints.cpp:274-292 | messages held go with the hashes held after every step, but for a reset that moves the checkpoint under a message; the pending hash stays announced, but for a reset to an unknown block |
| `Checkpoints.CheckpointsOnOneBranch` | src/checkpoints.cpp:104-203 | any two checkpoints of a run with no reset between them lie on one branch, from any state of the messages, the later one strictly higher unless equal |
| `Checkpoints.AdvanceAdmitsNothing` | src/checkpoints.cpp:216-241 | a forward move admits no higher block that was refused before |
| `Checkpoints.RunAdmitsNothing` | src/checkpoints.cpp:216-241 | the same from any point of a run to its end, with no reset between, while the tree grows |
| `Checkpoints.NewlyAdmitted` | src/checkpoints.cpp:216-241 | exactly which blocks a forward move admits: known ones between the two heights on another branch |
| `Checkpoints.LowerBlockAdmitted` | src/checkpoints.cpp:235-239 | an instance of such a block |
| `ModularInverse.RelayInverse` | src/dions.cpp:71-95 | a reduced result that times `x` is the greatest common divisor modulo `y`, with no 32-bit overflow on the way |
| `ModularInverse.GcdIsGreatest` | src/dions.cpp:79-90 | the number meant is the greatest common divisor |
| `ModularInverse.EuclidStep` | src/dions.cpp:81-89 | one iteration keeps both congruences, the divisor, the alternating signs and the weighted sum that bounds the coefficients by `y` |
| `ModularInverse.CoprimeInverse` | src/dions.cpp:71-95 | for coprime arguments the result is the modular inverse |
| `TxPost.AddUp` | src/dions.cpp:399-407 | accepts exactly non-empty payments no initial part of which is negative, and gives their sum |
| `TxPost.AttemptPosts` | src/dions.cpp:418-489 | every round's outputs are the payments in order with at most one change output, and the selected value is outputs, fee and less than a CENT |
| `TxPost.AttemptExactly` | src/dions.cpp:413-489 | a round succeeds exactly with a signed transaction that spends the alias output and then the selected coins, and pays what is asked for, with what is left over going to a change output of the wallet's key exactly when it is a CENT or more |
| `TxPost.Post` | src/dions.cpp:397-514 | the loop ends for every wallet, at a CENT or the fee that the size of the last round's transaction asked for; on success with a transaction of the final round as above whose size the fee covers; it fails only when the payments are refused or the final round has none |
| `TxPost.FeeRises` | src/dions.cpp:494-501 | the fee strictly rises by whole CENTs from round to round and is at most 4096 CENT |
| `AliasIndex.DisplacesExactly` | src/db.cpp:632-642 | `filter` displaces an entry exactly when `aliasTx` calls it expired or it is newer than the block |
| `AliasIndex.SetDisplacesExpired` | src/db.cpp:627-642 | in an ascending scan a SET displaces an entry exactly when `aliasTx` at that height calls it expired |
| `AliasIndex.RescanUnchanged` | src/db.cpp:627-648 | scanning the same operations over the finished entry changes nothing if the first is a SET |
| `AliasIndex.RescanExactly` | src/db.cpp:627-650 | scanning operations with different entries again changes nothing exactly when no RELAY comes before the first SET, or there is no SET, or the scan from the last such RELAY meets the first scan at an operation that takes both |
| `AliasIndex.RelaySteadies` | src/db.cpp:643-648 | a RELAY after the first SET makes a rescan change nothing |
| `AliasIndex.LateSetSteadies` | src/db.cpp:632-642 | so does a first SET after the lifetime of the last RELAY before it |
| `AliasIndex.RescanAfterRelay` | src/db.cpp:643-650 | a RELAY and a SET within its lifetime: the two scans end with different entries |
| `AliasIndex.ScanHolds` | src/db.cpp:622-650 | after an ascending scan an operation holds the name exactly when it took it and all later ones are SETs within its lifetime |
| `AliasIndex.LocatorNodeDB.Filter` | src/db.cpp:587-658 | every name undergoes exactly the operations of the block that concern it, with the positions of their transactions; what is left of a name is the entry (height, place, address, value relayed) of the last RELAY that found it indexed, else of the first SET that could take it, else what was there |
| `AliasIndex.BlockLeaves` | src/db.cpp:594-657 | that, for every initial part of a block |
| `AliasIndex.ScannedSuffix` | src/dions.cpp:6909-6920 | the blocks scanned are those from height 1625000 on, or all on the test network |
| `AliasIndex.LocatorNodeDB.Xsc` | src/dions.cpp:6909-6920 | the same for a whole chain, without the early blocks of the main network |
| `AliasIndex.LocatorNodeDB.ScanTwice` | src/dions.cpp:6909-6920 | for every ascending chain, exactly which names a second scan leaves as they are |
| `AliasChain.AliasScript` | src/dions.cpp:6169-6209 | accepts exactly an operation, its number of arguments and a drop; reports the operation even when it fails |
| `AliasRuns.AliasSpells` | src/dions.cpp:6169-6209 | the scripts accepted are exactly an operation, its arguments as pushes, a drop and any rest, and what is read back is what they spell |
| `AliasChain.FindAlias` | src/dions.cpp:6238-6264 | finds the only alias script, refuses two, reports the last operation met |
| `AliasChain.RelativeDepth` | src/dions.cpp:6506-6512 | the depth of the nearest block at the place, less than the limit; -1 exactly when no block within the limit is there |
| `AliasChain.DepthIsDifference` | src/dions.cpp:6506-6512 | for a block of the chain the depth is the difference of the heights, found exactly when it is below the limit |
| `AliasChain.ConnectInputsPost` | src/dions.cpp:6514-6907 | accepts exactly what `Connects` describes, in a block, in the miner and in the pool |
| `AliasChain.ModesDiffer` | src/dions.cpp:6833-6879 | the miner takes what a block takes, if the ENCRYPTED of a SET is within the lifetime and none is pending on the name, and a RELAY spends the last entry of the index; the pool differs from a block in the depth conditions and that entry |
| `AliasLedger.CheckedExactly` | src/dions.cpp:6514-6861 | in every linked ledger the transaction of a deed read right is accepted exactly when that deed is the only one, at most one alias is spent, and the deed is signed, within the limits, and follows from its source |
| `AliasRuns.AcceptedExactly` | src/dions.cpp:6514-6861 | a ledger under the discipline is accepted exactly when every DION transaction that is no coinbase or coinstake is so |
| `AliasLedger.TitleSigned` | src/dions.cpp:6708-6797 | in a title of checked deeds the owner named in the ENCRYPTED signed the name in the SET, and the ENCRYPTED carries a signature of its hash and its other fields |
| `AliasLedger.SetStep` | src/dions.cpp:6781-6845 | a SET that was checked as one is signed by its owner and spends an ENCRYPTED output of a strictly earlier block with the same owner field and the commitment Hash160(rand ++ alias) |
| `AliasLedger.RelayStep` | src/dions.cpp:6846-6861 | a RELAY that was checked as one spends a SET or RELAY of the same name less than `scaleMonitor()` blocks back |
| `AliasLedger.Provenance` | src/dions.cpp:6514-6861 | in every accepted ledger each checked deed on the way back from a SET or RELAY spends the one before it as its operation demands; the way is a title (an ENCRYPTED, the SET that opens it, RELAYs of the name) exactly when every deed on it that was not checked, for being in a coinbase, a coinstake or a transaction of another version or being misread, does so too |
| `AliasLedger.CheckedProvenance` | src/dions.cpp:6514-6861 | when all deeds on the way were checked, it is a title |
| `AliasLedger.NameKept` | src/dions.cpp:6854-6857 | the name is the same all along deeds that renew one another |
| `AliasLedger.TitleUnique` | src/dions.cpp:6549-6571 | a title whose deeds were checked is the only title that ends in its last transaction, so there is one SET |
| `AliasRuns.Replay` | src/main.cpp:1694-1798 | for every sequence of blocks and transactions the ledger is the one that appends exactly the transactions that meet `Connects`, are of another version, or are coinbases or coinstakes, and it is accepted |
| `AliasRuns.ReplayStep` | src/main.cpp:1694-1798 | a transaction enters exactly when the ledger with it is accepted |
| `AliasRuns.UnboundRelay` | src/dions.cpp:6522-6541 | an accepted ledger with a RELAY and no SET: its source is in a transaction of another version |
| `AliasRuns.MintedSet` | src/main.cpp:1789-1798 | an accepted ledger whose alias scripts are all in DION transactions, with a RELAY of a SET in a coinstake that spends no ENCRYPTED |
| `AliasRuns.MisreadInput` | src/dions.cpp:6555-6571 | an accepted ledger with a RELAY that spends an ENCRYPTED output, the operation spent being read from another input |
| `AliasRuns.DisciplinedProvenance` | src/dions.cpp:6549-6861 | where alias scripts occur only in DION transactions that are no coinbases or coinstakes, and nothing else starts with OP_1 to OP_16, the way back from every SET and RELAY is a title of checked deeds |
| `AliasTitles.ChainItemsAreLedger` | src/db.cpp:598-657 | what a scan of the blocks finds for a name are the operations of the ledger on it |
| `AliasTitles.IndexHolds` | src/db.cpp:622-650 | after a scan the index holds a transaction's entry exactly when it took the name and every later one leaves the name alone or is a SET within its lifetime |
| `AliasTitles.TitledRelayTakes` | src/db.cpp:643-648 | a RELAY with a title of checked deeds takes the name if it is scanned together with the title's SET |
| `AliasTitles.SetTakesFree` | src/db.cpp:627-642 | a SET takes the name exactly when no earlier deed held it unexpired |
| `AliasTitles.IndexHoldsTitle` | src/db.cpp:587-658 | after the scan of an accepted chain the index holds the last deed of a title of checked deeds, scanned with the title's SET, exactly when all later operations on the name are SETs within its lifetime and, if it is the SET, the name was free |
| `AliasTitles.LastIsHolder` | src/dions.cpp:6157-6163 | the last entry of a name is that of a transaction exactly when this one acted on the name, took it, and all later ones spare it |
| `AliasTitles.MinerRelaysHolder` | src/dions.cpp:6846-6873 | the miner accepts a RELAY exactly when a block would and the deed it spends holds the name in the scanned index |
| `AliasTitles.RivalRelay` | src/dions.cpp:6846-6873 | with two titles of one name, both checked, a RELAY that a block accepts and the miner does not |
| `AliasTitles.TwoLiveTitles` | src/dions.cpp:6873-6891 | an accepted ledger with two live titles of one name, both checked, on either network: the index keeps the first SET, then the RELAY of the other title takes the name |

## Left out

- `Select_` and `GetChance` (src/addrman.cpp:57-78, 389-432): floating point, and loops that end only with probability one.
- Reading an address file with another number of new buckets (src/addrman.h:334-338): `Load` returns false there; that path has no bound on bucket sizes.
- AddrDisk.Load: says nothing about files that are not the image of a valid manager, beyond that reading them ends; the byte encoding of the fields is abstracted to tokens.
- Overflow of the 32-bit counters of the address manager (ids, attempts) and of 64-bit times: they are unbounded integers here; only the truncation of `nTime` to 32 bits is modelled.
- One call of `Add_` reads the clock once in the model.
- The bucket hash functions, routability, double-SHA and RIPEMD hashes, signatures and encryption: arbitrary functions or verdicts.
- The constants and compression internals of BLAKE, the initial values of BLAKE and CubeHash, and the encoding of the final words as bytes.
- `setuint256`/`getuint256`, `SetHex`, `ToString` and the arithmetic operators of `CBigNum`: the first two repeat the 64-bit loops, the others are library calls or easier loops.
- The key and address classes on top of `CBase58Data`: easier members.
- The mask arithmetic of page addresses is modelled as rounding down, which it is for the powers of two that the constructor asserts; lock counts are unbounded.
- Values, fees, signatures, time stamps and double spends in `ConnectInputs` (src/main.cpp:1694-1815), and the maturity of coinbases and coinstakes: ledgers that break them count as accepted too; the instances given keep maturity (`Matured`).
- AliasChain.ConnectInputsPost: reading past the end of the arguments, undefined in the program, yields an empty argument; the checks of messages and keys, and those an ENCRYPTED meets only in the wallet of its owner, are one outside verdict, and the wallet's bookkeeping is not modelled.
- AliasIndex.LocatorNodeDB.Filter: a SET or RELAY without any argument, whose name the program would read past the end, is excluded; a missing value of a RELAY is empty.
- AliasTitles.IndexHoldsTitle: is about titles of checked deeds whose SET is scanned; when it lies before the first scanned block of the main network, `IndexHolds` still says when the RELAY is held.
- TxPost.Post: amounts are unbounded integers; a set of coins is a sequence.
- `AutoSelectSyncCheckpoint`, maturity and sending of checkpoints (src/checkpoints.cpp:206-214, 298-352). The main chain before and after a reset is a parameter; that it is a branch of the tree is not part of this model.
- The other alias and message commands of src/dions.cpp, the wallet, RPC, network and storage layers.
- Locks and threads: every operation runs under one lock and is one step.
- src/groestl.c, src/bmw.c, src/echo.c, src/aes_helper.c: tables and straight-line mixing with the streaming shape of BLAKE.
