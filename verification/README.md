# Verified model of the note vault firmware

The firmware keeps bearer notes on a small device with two buttons: it holds
secrets on flash, talks to hosts over USB serial and BLE, asks its owner before
anything that matters, and takes signed firmware updates. This project states
what the portable part of it promises and proves it in Dafny. Nothing is
executed; `dafny verify dfyconfig.toml` checks everything.

The files follow the sources. Code that updates memory step by step is modelled
by classes and methods with loops, each tied by its contract to a function or a
step relation; the properties over several calls, over whole runs and over all
interleavings are lemmas about those.

- Ed25519 arithmetic: `ScalarL` (arithmetic modulo the group order), `Field25519`
  and `FieldBytes` (ten-limb field elements), `Edwards`, `AffineLaw` and
  `GroupOps` (point formulas), `SlidingWindow`, `PointBytes` and `VerifyLoop`
  (signature verification), `SignedComb` (base point multiplication), over
  `Machine`, `Radix`, `Bytes` and `Group`.
- Notes: `Vault` (the ledger and its flash), `VaultRuns` (what holds over runs).
- Concurrency: `LockProtocol` (two locks, queues, any number of transports).
- Protocols: `OtaTransfer`, `Approval`, `BleFrame`, `LineLink`, over `Pieces`.
- Encoders, hashes, keys: `Base64`, `Bech32`, `HashBlocks`, `Sha256Stream`,
  `Sha512Stream`, `Derive`, over `BigEndian`.

Fixed-width integers are subset types, so assigning to one is a proof that no
value is lost; a narrowing cast is written as a remainder, a right shift as a
division that rounds down. Storage, radio and USB drivers, the random source and
the owner are nondeterministic: a contract holds for every choice they make.
They record what they did, as ghost state: which flash calls failed, which bytes
were drawn, which waits gave up, which calls the platform took. So a contract
can say that an operation fails only because one of them did.

What is assumed, always as a parameter or a hypothesis of the lemma or method
that needs it: that the point formulas of RFC 8032 section 5.1.4 add in an
abelian group (`Edwards.Curve.Law`), of which (0, 1) is the only point with y = 1
(`Edwards.Curve.NeutralAlone`); that `fe_invert` inverts (`PointBytes.Inverts`);
that the three precomputed tables hold the multiples they should, and that the
base point has order L; that a failed flash write changes nothing. Compression
functions, HMAC and the signature check are uninterpreted.

Six things the proofs bring out:

- The carry chain documents |t0| < 2^63 as sufficient. It first adds 2^25 to t0,
  so the model asks for |t0| < 2^63 - 2^25; every caller is far below that.
- `persist_index` cuts the index off at 128 ids while the capacity test counts
  loaded notes only. A creation keeps every id set aside if and only if loaded,
  unloaded and new ids together are at most 128 (`TruncationBoundary`);
  `TruncationDropsANote` is a run from the first boot that loses one.
- A fresh id is compared with the notes in RAM only. A creation spares the notes
  set aside, whatever fails, if and only if none of its ids is one of theirs
  (`SparedIffNoClash`, `SparedWhateverFails`); `CollisionLosesANote` is a run in
  which the creation is refused and undone, and an imported note is gone.
- An import looks for its secret among the notes in RAM only. It keeps every
  secret to one note if and only if no note set aside has it (`ImportApartIff`);
  `RetriedImportCountsTwice` is a run in which a retry of an import, after a boot
  that could not read the note, makes 42000 of 21000.
- A removal whose index was not written leaves its id there. A refused import
  that draws this id and is saved but not deleted comes back at the next boot
  (`RefusedImportComesBack`); `RefusedLeavesMoneyIff` says exactly when.
- The update host cannot tell a late reply from a current one. Over a channel
  that keeps the order it can be wrong about a finished transfer if and only if
  the image, being one the device takes up, has more than one chunk
  (`FooledInOrderIff`); a single late reply is enough (`LateReplyFoolsTheHost`).
  The device is never wrong about it (`FinishMeansImage`), it has booted the image if and only if it answered ok to
  a finish (`BootedIffAnswered`), and a host that checked the tag the device
  echoes would always be right (`TaggedHostIsRight`).

## Model

| member | source | states |
|---|---|---|
| Bytes.Load32LeBuf | src/ota/monocypher.c:128-130 | words loaded little-endian denote the number the bytes denote |
| Bytes.Store32LeBuf | src/ota/monocypher.c:134-136 | bytes stored little-endian denote the number the words denote |
| ScalarL.MulAddRow | src/ota/monocypher.c:1608-1614 | one row adds m * b to a window of p exactly, carry included, and touches nothing else; no 64-bit sum overflows |
| ScalarL.Multiply | src/ota/monocypher.c:1605-1616 | p becomes its low limbs plus a * b, exactly, for operands of any length |
| ScalarL.IsAboveL | src/ota/monocypher.c:1618-1628 | the carry out of x + ~L + 1 is 1 exactly when x >= L |
| ScalarL.RemoveL | src/ota/monocypher.c:1630-1644 | subtracts L exactly once when x >= L, also in place |
| ScalarL.BarrettQuotient | src/ota/monocypher.c:1646-1668 | the quotient by multiplication with floor(2^512 / L) leaves a remainder in [0, 2L) |
| ScalarL.QuotientTimesL | src/ota/monocypher.c:1665-1675 | the product of the quotient with L, truncated to 256 bits, differs by a multiple of 2^256 |
| ScalarL.BarrettRemainder | src/ota/monocypher.c:1646-1683 | truncating both sides to 256 bits loses nothing: the difference is the true remainder, below 2L |
| ScalarL.ModL | src/ota/monocypher.c:1646-1688 | for every 512-bit x, exactly x mod L, below L |
| ScalarL.EddsaReduce | src/ota/monocypher.c:1690-1696 | a 64-byte hash is reduced to its value mod L |
| ScalarL.EddsaMulAdd | src/ota/monocypher.c:1699-1711 | (a * b + c) mod L for all 256-bit a, b, c |
| Field25519.FeCarry | src/ota/monocypher.c:1077-1152 | under the precondition no step overflows, the limbs come out tight and the value changes by a multiple of 2^255 - 19 |
| Field25519.ProductIdentity | src/ota/monocypher.c:1257-1305 | the ten sums of products denote the product of the operands up to a multiple of the modulus |
| Field25519.FeMul | src/ota/monocypher.c:1250-1305 | in-bound limbs never overflow 32 or 64 bits; the result is tight and congruent to the product |
| Field25519.FeSq | src/ota/monocypher.c:1307-1357 | the same for the square, with its own shorter sums |
| Field25519.FeMulSmall | src/ota/monocypher.c:1237-1248 | the same for a small factor |
| Field25519.FeAdd | src/ota/monocypher.c:976-976 | values add; two tight operands give a sum within its bound, a third addition still fits multiplication |
| Field25519.FeSub | src/ota/monocypher.c:977-977 | values subtract, with the same bounds |
| FieldBytes.FeFromBytes | src/ota/monocypher.c:1160-1179 | every 32 bytes decode to tight limbs congruent to their value without the top bit |
| FieldBytes.SignOf | src/ota/monocypher.c:1197-1208 | the chain of shifts computes exactly the sign of the whole number |
| FieldBytes.FeToBytes | src/ota/monocypher.c:1182-1228 | writes the one representative in [0, 2^255 - 19), negative limb vectors included |
| FieldBytes.DecodeThenEncode | src/ota/monocypher.c:1160-1228 | encoding what was decoded gives the bytes reduced mod 2^255 - 19 without their top bit, and canonical bytes unchanged |
| FieldBytes.FeIsOdd | src/ota/monocypher.c:1360-1367 | the parity of the canonical representative |
| FieldBytes.FeIsEqual | src/ota/monocypher.c:1370-1380 | true exactly when the two values are congruent |
| Edwards.CurveConstants | src/ota/monocypher.c:1795-1801 | the limb constants are d = -121665/121666 and 2d |
| Edwards.AddIsRfcAdd | src/ota/monocypher.c:1805-1825 | the operations of ge_add, in their order, give the four coordinates of the RFC 8032 addition |
| Edwards.DoubleIsRfcDouble | src/ota/monocypher.c:1870-1887 | those of ge_double give the RFC 8032 doubling with all four signs changed, the same point |
| AffineLaw.AddIsAffine | src/ota/monocypher.c:1805-1825 | the point those four coordinates stand for is the sum by the addition law of -x^2 + y^2 = 1 + d x^2 y^2, for any common denominators, and T stays xy/z |
| AffineLaw.DoubleIsAffine | src/ota/monocypher.c:1870-1887 | for a point of the curve the doubling is its sum with itself by that law |
| Edwards.OppositeSwaps | src/ota/monocypher.c:1829-1837 | swapping the cached sums and negating T2 caches the opposite point |
| GroupOps.GeCache | src/ota/monocypher.c:1795-1801 | a point with tight coordinates gives a cached form within the bounds addition needs |
| GroupOps.GeAdd | src/ota/monocypher.c:1805-1825 | every multiplication meets its bounds, the result is tight again and is the RFC sum, also in place |
| GroupOps.GeSub | src/ota/monocypher.c:1829-1837 | the RFC sum with the opposite point, bounds kept |
| GroupOps.GeMadd | src/ota/monocypher.c:1839-1856 | the RFC sum with a precomputed point, bounds kept |
| GroupOps.GeMsub | src/ota/monocypher.c:1861-1868 | the RFC sum with the opposite of a precomputed point, bounds kept |
| GroupOps.GeDouble | src/ota/monocypher.c:1870-1887 | the RFC double up to common sign, bounds kept, so steps can follow one another without end |
| Group.Group.TimesAdd | src/ota/monocypher.c:2032-2050 | in any abelian group multiples add, for signed factors |
| Group.Group.TimesOrder | src/ota/monocypher.c:2206-2208 | multiples of the order do not matter |
| SlidingWindow.ScalarBitIsBit | src/ota/monocypher.c:1510-1514 | the byte-wise bit test reads the bits of the number the bytes denote |
| SlidingWindow.WindowAdvances | src/ota/monocypher.c:1970-1994 | what a window adds is the difference between two rounded quotients of the scalar |
| SlidingWindow.WindowAt | src/ota/monocypher.c:1978-1983 | the loop over the window computes its signed value, also when it is cut short at the bottom |
| SlidingWindow.MasksReadLog2 | src/ota/monocypher.c:1984-1988 | on the bits of v: v & (~v + 1) and the three masks find the power of two in it |
| SlidingWindow.OddDigit | src/ota/monocypher.c:1984-1991 | what is left after the shift is odd, below 2^(width-1), and fits the 8 bits it is put into |
| SlidingWindow.SlideCtx.Init | src/ota/monocypher.c:1949-1968 | starting at the top set bit, or anywhere above, the recoding matches the scalar |
| SlidingWindow.SlideCtx.OpenWindow | src/ota/monocypher.c:1977-1992 | the digit found is odd and small, no pending digit is overwritten, and the wrap of next_check below zero is harmless |
| SlidingWindow.SlideCtx.Step | src/ota/monocypher.c:1970-1994 | appending the digit returned keeps the digits so far equal to the rounded upper part of the scalar |
| SlidingWindow.SlideCtx.Finished | src/ota/monocypher.c:1970-1994 | after the last position the digits spell the scalar |
| VerifyLoop.OddMultiples | src/ota/monocypher.c:2019-2028 | the table holds the odd multiples of -A |
| VerifyLoop.LadderStep | src/ota/monocypher.c:2036-2047 | one round turns [m](-A) + [n]B into [2m + d](-A) + [2n + e]B; every table index is in range |
| VerifyLoop.Ladder | src/ota/monocypher.c:2030-2049 | the interleaved loop ends at [s]B + [h](-A) for all s, h below 2^253 |
| PointBytes.GeToBytes | src/ota/monocypher.c:1733-1745 | the 32 bytes denote y/z reduced, plus 2^255 times the parity of x/z |
| PointBytes.IsNeutral | src/ota/monocypher.c:2053-2064 | the comparison of the encoding with the zero point decides whether y = z |
| VerifyLoop.CheckEquation | src/ota/monocypher.c:2000-2065 | accepts if and only if both points decode, s < L and [8]([s]B + [h](-A) + (-R)) is zero |
| SignedComb.SignedBitsValue | src/ota/monocypher.c:2207-2209 | k bits read as plus and minus one make 2n - (2^k - 1) |
| SignedComb.SignedFormIsCongruent | src/ota/monocypher.c:2196-2209 | the all-bits-set form of a scalar is congruent to it modulo L |
| SignedComb.IndexIsPattern | src/ota/monocypher.c:2173-2178 | for all 16 tooth patterns the index is the pattern or its complement, by the top tooth |
| SignedComb.SelectEntry | src/ota/monocypher.c:2179-2184 | the branch-free scan of the table leaves exactly the entry at the index |
| SignedComb.PatternWorth | src/ota/monocypher.c:2170-2189 | the selected entry, negated or not, is worth what the four teeth add up to |
| SignedComb.LookupAdd | src/ota/monocypher.c:2170-2189 | adds that multiple of B to the point |
| SignedComb.BothCombedAll | src/ota/monocypher.c:2219-2229 | thirty-two rows of both combs read all 256 bits once each, at their weights |
| SignedComb.ScalarMultBase | src/ota/monocypher.c:2192-2238 | [scalar]B for every 256-bit scalar when B has order L |
| Vault.Ledger.FindIndex | src/vault/vault.c:38-45 | the first note with the id, or none |
| Vault.Ledger.PersistIndex | src/vault/vault.c:47-75 | writes loaded ids then unloaded ones up to capacity, and nothing while the index is unknown |
| Vault.Ledger.CloseGap | src/vault/vault.c:92-95 | the in-place compaction removes one note and keeps the order of the others |
| Vault.Ledger.RemoveAtIndex | src/vault/vault.c:89-103 | a note leaves RAM; blob and index go as far as the writes worked, and the answer says so |
| Vault.Ledger.GenUniqueId | src/vault/vault.c:111-125 | the id spells, in hexadecimal, the last bytes drawn and no note in RAM nor the reserved sibling has it; none only after eight draws without luck |
| Vault.Ledger.Init | src/vault/vault.c:143-192 | a boot loads the readable blobs in index order and sets the others aside; an unreadable index is not an empty one; it reads the index and then each blob once |
| Vault.Ledger.NewNote | src/vault/vault.c:211-245 | the pending note as asked for, with every text cut to its buffer, or the right refusal |
| Vault.Ledger.NewSecret | src/vault/vault.c:247-275 | the caller gets the id and the hash of the secret of a pending note that is in RAM and on flash, field by field as asked for; or nothing, and then ids ran out or a flash call failed |
| Vault.Ledger.NewSecretPair | src/vault/vault.c:277-320 | the same for two notes with different ids, both or neither |
| Vault.Ledger.Confirm | src/vault/vault.c:322-351 | the note in RAM and on flash is the old one, confirmed, at the amount given, with host and signature cut from the arguments; the money in RAM grows by that amount; otherwise nothing changes, and the refusal is the right one |
| Vault.Ledger.Discard | src/vault/vault.c:353-362 | removes pending notes only |
| Vault.Ledger.ExportSecret | src/vault/vault.c:364-374 | reveals the secret of a confirmed note only, and changes nothing |
| Vault.Ledger.ImportSecret | src/vault/vault.c:376-445 | a secret already held answers with its note and changes nothing; a new one becomes a confirmed note, field by field as asked for, and RAM gains its amount; or it is undone, and then ids ran out or a flash call failed |
| Vault.Ledger.MarkSpent | src/vault/vault.c:447-466 | the note in RAM and on flash is the old one, spent; RAM loses its amount; or nothing changes and the refusal is the right one |
| Vault.Ledger.Rename | src/vault/vault.c:468-481 | only the label and the time change, in both places or neither; no amount changes |
| Vault.Ledger.Delete | src/vault/vault.c:483-492 | removes spent notes only |
| Vault.Ledger.PruneSpent | src/vault/vault.c:504-553 | removes exactly the spent notes in one in-place pass and one index write; refuses while the index is unknown; the others keep their order and the money in RAM its amount; it reports a failure exactly when a flash call failed |
| Vault.Ledger.ForgetAll | src/vault/vault.c:572-588 | no byte of any note is left in the array |
| Vault.Ledger.WipeAll | src/proto/dispatcher.c:953-979 | RAM is forgotten only after a verified erase; otherwise it keeps every note |
| VaultRuns.StepKeepsInv | src/vault/vault.c:47-103 | every operation, whatever storage does, keeps the invariant between RAM, index and blobs; all but removals whose index was not written keep them in agreement |
| VaultRuns.RemovalSyncIffIndexed | src/vault/vault.c:84-103 | a discard, delete or prune leaves RAM and flash in agreement if and only if the shortened index was written |
| VaultRuns.RebootReloads | src/vault/vault.c:143-192 | a boot that reads what the last one could read restores the same notes in the same order |
| VaultRuns.RunThenReboot | src/vault/vault.c:247-351 | after any run with storage failing anywhere, but for removals whose index was not written, a reboot reloads exactly the note sequence held in RAM |
| VaultRuns.RunThenAnyReboot | src/vault/vault.c:143-192 | and a reboot that reads every note in RAM, and whichever others, has the notes in RAM again, in the same order |
| VaultRuns.RunSurvives | src/vault/vault.c:47-75 | over any boots and failures an id that the index names, and RAM knows, stays until a discard, delete, prune or wipe that takes it; its note keeps its secret and its state only moves forward |
| VaultRuns.RunUnknownWritesNothing | src/vault/vault.c:53-60 | while the index is unreadable no operation writes flash |
| VaultRuns.ConfirmedStays | src/vault/vault.c:353-362 | a confirmed note stays, at its amount and under its secret, until it is marked spent, whatever its id was used for before |
| VaultRuns.ExportMatchesDisclosure | src/vault/vault.c:247-275 | the hash disclosed at creation is the hash of what any later export of that note reveals, until the note is removed |
| VaultRuns.RunNeverLosesValue | src/vault/vault.c:322-466 | over any run, whatever fails: the confirmed total never falls short of the confirms and the imports that made a note, less the mark_spents and wipes, and equals them if and only if no boot found anything worth money left over by a failed removal |
| VaultRuns.RunConservesValue | src/vault/vault.c:322-466 | so it equals them along every run that draws no id a failed removal left in the index |
| VaultRuns.BootConservesValue | src/vault/vault.c:143-192 | a boot, whatever it manages to read, moves money only between RAM and what is set aside, if and only if what failed removals left in the index is worth nothing |
| VaultRuns.RunConservesMoney | src/vault/vault.c:393-413 | along a run whose creations bring new secrets no two notes share a secret, so that the total counts every secret once |
| VaultRuns.RunApartIff | src/vault/vault.c:393-413 | over a run no two notes ever share a secret if and only if every creation that worked brought new secrets |
| VaultRuns.CreationApartIff | src/vault/vault.c:393-413 | a creation that works keeps the secrets of RAM, set-aside notes and index apart if and only if its own are new to them |
| VaultRuns.ImportApartIff | src/vault/vault.c:408-413 | an accepted import keeps them apart if and only if no note set aside has its secret |
| VaultRuns.RetriedImportCountsTwice | src/vault/vault.c:393-413 | a run from the first boot: imported, unread at a boot, imported again by a retry, both read at the next boot; one secret, counted twice |
| VaultRuns.RefusedLeavesMoneyIff | src/vault/vault.c:432-443 | a refused creation leaves money behind exactly if an import's blob, saved and not deleted, stays under an id the unwritten index still names |
| VaultRuns.RefusedImportComesBack | src/vault/vault.c:432-443 | a run from the first boot in which a refused import is a confirmed note after the next boot |
| VaultRuns.FailedWipe | src/proto/dispatcher.c:953-963 | a wipe that did not verify leaves RAM and index as they were; the next boot may find no blob, but knows every id |
| VaultRuns.TruncationBoundary | src/vault/vault.c:61-75 | a creation keeps exactly the unloaded ids there is room for; with fresh ids, all of them if and only if all ids fit in 128 entries |
| VaultRuns.TruncationDropsANote | src/vault/vault.c:211-245 | a run from the first boot: 128 notes, one blob that does not read, one more note, and the index has dropped the one set aside |
| VaultRuns.SparedIffNoClash | src/vault/vault.c:111-125 | a creation that worked leaves the notes set aside, whose secrets are others, as they were if and only if none of its ids is one of theirs |
| VaultRuns.SparedCallByCall | src/vault/vault.c:261-272 | one that failed loses a note set aside exactly if a note of its id was saved or deleted |
| VaultRuns.SparedWhateverFails | src/vault/vault.c:111-125 | one that fails is harmless however storage fails if and only if no id clashes |
| VaultRuns.CollisionLosesANote | src/vault/vault.c:261-272 | a run from the first boot, call by call: an imported note is set aside, a new one of its id is saved, not indexed and deleted again, and the imported note is gone |
| LockProtocol.StepKeepsInv | src/cmd_lock.h:42-65 | every blocking step of every task, with any number of critical sections in a pass of the UI loop, keeps the ownership of both locks and the one conversation in order |
| LockProtocol.MutualExclusion | src/cmd_lock.h:16-33 | at most one command in the dispatcher and one question outstanding; no queue is ever full when something is sent |
| LockProtocol.VerdictIsOwn | src/ui/ui_task.c:840-853 | what a transport receives was decided about its own question |
| LockProtocol.VerdictsAreHonest | src/ui/ui_task.c:496-546 | in every state of a run the prompt on screen is what the polls on record made it, and a verdict is the outcome of the last of them |
| LockProtocol.PollsWereMade | src/ui/ui_task.c:510-537 | each poll on record was the last one made for this very question at some earlier state of the run |
| LockProtocol.YesIsAHold | src/ui/ui_task.c:496-546 | when a transport is told yes, there was a state of this run in which the UI task was about to answer this very question so, and the polls on record there end in the owner's two-second hold; when it is told no, in a cancel of a quarter second |
| LockProtocol.VerdictIsTheOutcome | src/ui/ui_task.c:543-562 | the answer is yes if and only if the polls granted, no if and only if they denied, a timeout if and only if they expired |
| LockProtocol.NoDeadlock | src/main.c:235-300 | in every reachable state each task can move or the task it waits for can |
| LockProtocol.UiReachesTheQuestion | src/ui/ui_task.c:604-630 | while a transport waits nothing can hold up the UI task, and each of its steps, polls of the prompt included, brings the answer nearer |
| LockProtocol.OthersDoNotDelay | src/cmd_lock.h:49-65 | no step of another transport puts the answer off |
| LockProtocol.KeepingTheLockDeadlocks | src/main.c:219-239 | if the callbacks kept vault_lock across the wait, a reachable state would be one nobody leaves |
| OtaTransfer.OtaSession.HandleBegin | src/proto/dispatcher.c:754-819 | opens a session for a signed digest of 1 to 2097152 bytes unless the owner was asked and refused or the partition was asked to open and failed, and makes no other call; discards any earlier session; the hash starts afresh |
| OtaTransfer.OtaSession.HandleChunk | src/proto/dispatcher.c:821-874 | takes exactly the next bytes, writes them in one call, refuses a chunk in order and within bounds only if that write failed, and ends the session where the code does |
| OtaTransfer.OtaSession.HandleFinish | src/proto/dispatcher.c:876-906 | boots what was written and answers ok if it is complete, its SHA-256, as the streaming hash computes it, is signed and finalizing worked; refuses for any other reason only with the matching call on record |
| OtaTransfer.OtaSession.Handle | src/proto/dispatcher.c:754-906 | any command keeps the session sound: the streaming hash has been fed exactly what was written |
| OtaTransfer.DeviceStaysSound | src/proto/dispatcher.c:876-906 | the hash always runs over exactly what was written, and nothing unsigned is ever made bootable |
| OtaTransfer.PrefixUnderDelay | tools/ota_push.py:202-223 | with losses, delays and repeats what was written is always a prefix of the image |
| OtaTransfer.FinishMeansImage | src/proto/dispatcher.c:876-906 | ota_finish answers ok only when the bytes equal the image |
| OtaTransfer.BootedIffAnswered | src/proto/dispatcher.c:876-906 | over any channel the device has booted the image if and only if it answered ok to a finish, and nothing else ever |
| OtaTransfer.TaggedHostIsRight | src/proto/dispatcher.c:45-66 | a host that takes only an answer to its finish for the outcome is right, whatever is lost, delayed or repeated |
| OtaTransfer.LossyRun | tools/ota_push.py:174-223 | with losses only the device is never behind the host nor more than one chunk ahead, and a host that is done has a device that booted the image |
| OtaTransfer.DeliveredMovesOn | tools/ota_push.py:174-199 | one exchange that gets through moves the host on, whether or not an earlier attempt was applied |
| OtaTransfer.LateReplyFoolsTheHost | tools/ota_push.py:147-199 | for any image of two chunks or more, one late reply with nothing lost, repeated or out of order makes the host report success although the finish was refused |
| OtaTransfer.FooledInOrderIff | tools/ota_push.py:174-223 | over a channel that keeps the order, the host can be wrong if and only if the image takes more than one chunk |
| OtaTransfer.FooledIff | tools/ota_push.py:174-223 | over one that repeats as well, for every image the device takes up and no other |
| OtaTransfer.StaleReplyFoolsTheHost | tools/ota_push.py:147-168 | one reply read again and again makes the host report success wrongly, for any image the device takes up |
| Base64.EncodeInto | src/proto/base64.c:10-35 | writes the text and a NUL and nothing beyond |
| Base64.DecodeInto | src/proto/base64.c:50-96 | accepts exactly well-formed text, refuses before writing, and writes what it means |
| Base64.TableEntry | src/proto/base64.c:3-4 | the encoding table in terms of its ranges |
| Base64.RoundTrip | src/proto/base64.c:10-96 | every byte string decodes from its own text |
| Base64.EncodeSpells | src/proto/base64.c:10-35 | each group of four characters spells the number its three bytes denote |
| Base64.RestSpells | src/proto/base64.c:21-33 | the last one or two bytes are spelled by the leading bits of two or three characters, the rest is padding |
| Base64.EncodedLength | src/proto/base64.c:6-8 | the length formula is exact |
| Bech32.StepLinear | src/proto/bech32.c:17-26 | the polymod step is linear over exclusive or |
| Bech32.StepIsRemainder | src/proto/bech32.c:15-26 | in GF(32) with x^5 + x^3 + 1, a step multiplies by x, adds the value and reduces modulo the BIP-173 generator x^6 + {29}x^5 + {22}x^4 + {20}x^3 + {21}x^2 + {29}x + {18} |
| Bech32.CharsetIs | src/proto/bech32.c:12-12 | the characters are those of BIP-173, in upper case |
| Bech32.HrpExpandIs | src/proto/bech32.c:103-143 | the prefix is expanded to the high bits, a zero and the low five bits of its characters in lower case |
| Bech32.ChecksumEquation | src/proto/bech32.c:136-153 | appending the checksum digits makes the remainder 1 for any values |
| Bech32.GroupCursor.Next | src/proto/bech32.c:53-71 | the groups spell the number the bytes spell, although the accumulator overflows |
| Bech32.RegroupRoundTrip | src/proto/bech32.c:53-71 | regrouping from 5 to 8 bits returns the bytes with only zeros left over |
| Bech32.CaseDoesNotMatter | src/proto/bech32.c:103-112 | the checksum over the lower-case prefix is the one a reader of the upper-case string computes |
| Bech32.EmittedIsValid | src/proto/bech32.c:155-171 | every emitted string is read back to its values and satisfies the BIP-173 equation |
| Bech32.ReadsBack | src/proto/bech32.c:114-171 | a reader that has only the characters, splits at the last separator, checks the remainder and regroups gets the bytes back |
| Bech32.EncodeUpper | src/proto/bech32.c:114-171 | the whole string, of exactly the announced length and read back to the bytes, or the empty one |
| HashBlocks.WholeBlocks | src/vault/sha256.c:113-131 | the padding ends at a block boundary with the fewest zeros that do |
| HashBlocks.PaddedSpells | src/vault/sha256.c:113-131 | the padded message as one number: the message, a one bit, the zeros and the length in bits, big-endian |
| HashBlocks.StoreWords | src/vault/sha256.c:141-146 | the bytes written are those of the words, in order |
| HashBlocks.WordBytesSpell | src/vault/sha256.c:141-146 | each word is read back from its bytes |
| Sha256Stream.ZerosNeeded | src/vault/sha256.c:127-131 | the computed zero count is the one FIPS 180-4 section 5.1.1 asks for |
| Sha256Stream.EndsAt56 | src/vault/sha256.c:127-131 | after it exactly 56 bytes are buffered |
| Sha256Stream.Sha256.Update | src/vault/sha256.c:77-103 | any piece, in any state of the buffer, extends the message by exactly that piece |
| Sha256Stream.Sha256.Final | src/vault/sha256.c:105-136 | the chaining value is the fold over the blocks of the padded message |
| Sha256Stream.OneShot | src/vault/sha256.c:138-154 | the 32 bytes written are the digest of the message, big-endian |
| Sha256Stream.InPieces | src/vault/sha256.c:149-154 | any split of a message gives the digest of the whole |
| Sha512Stream.OrPutsByte | src/ota/monocypher-ed25519.c:180-185 | ORing a byte into a word puts it there because the place holds zero |
| Sha512Stream.Sha512.Increase | src/ota/monocypher-ed25519.c:188-194 | the two-word counter counts modulo 2^128 |
| Sha512Stream.Sha512.Update | src/ota/monocypher-ed25519.c:212-273 | word and block alignment never leave a stale byte; the message grows by exactly the piece |
| Sha512Stream.Sha512.Final | src/ota/monocypher-ed25519.c:275-294 | one or two last blocks make exactly the padded message of FIPS 180-4 section 5.1.2 |
| Sha512Stream.OneShot | src/ota/monocypher-ed25519.c:296-310 | the 64 bytes written are the digest of the message, big-endian |
| Sha512Stream.InPieces | src/ota/monocypher-ed25519.c:304-310 | any split of a message gives the digest of the whole |
| Approval.Prompt.Tick | src/proto/approval.c:19-105 | one poll takes the decisions in the order of the code |
| Approval.GrantMeansHold | src/proto/approval.c:71-80 | a grant ends a hold of at least 2 s begun by a press right after a poll that saw the button up, with gaps under 40 ms, no fresh cancel down, begun no later than the first poll past the deadline |
| Approval.CleanHoldGrants | src/proto/approval.c:55-80 | a clean press of 2 s before the deadline is granted |
| Approval.HoldRuns | src/proto/approval.c:55-105 | a hold begun before the deadline by a fresh press, with gaps under 40 ms and no cancel, is never dropped, runs past the deadline, and grants at 2 s and not before |
| Approval.DenialMeansCancel | src/proto/approval.c:39-53 | a denial is a cancel seen released and then down for 250 ms |
| Approval.CancelDenies | src/proto/approval.c:39-53 | and a cancel seen released and then down at every poll for 250 ms denies, whatever the other button does |
| Approval.StuckCancelIsHarmless | src/proto/approval.c:25-37 | a cancel line pressed at every poll gives the outcomes of one never pressed |
| Approval.PromptEnds | src/proto/approval.c:92-102 | no prompt is pending at or after its deadline plus 2 s |
| Approval.UntouchedExpires | src/proto/approval.c:92-102 | a prompt nobody touches is pending before its deadline and expires at the first poll at or after it |
| Approval.ExpiryIsLate | src/proto/approval.c:92-102 | no prompt expires before its deadline |
| Approval.PollsAreFew | src/ui/ui_task.c:509-537 | a loop that polls at least every step asks at most (timeout + 2 s) / step + 1 times |
| Approval.OutcomesAbsorb | src/proto/approval.c:21-23 | outcomes absorb |
| Approval.ProgressPermille | src/proto/approval.c:120-134 | the bar shows a two-thousandth of the microseconds held, full exactly when granted or held long enough |
| BleFrame.FeedSplit | src/proto/ble_frame.c:20-80 | the result does not depend on how the stream is cut |
| BleFrame.StreamDelivers | src/proto/ble_frame.c:38-79 | exactly the messages of 1 to 4095 bytes come out, whole and in order, and the stream stays in sync |
| BleFrame.FrameIs | src/proto/ble_frame.c:38-79 | a frame is the message after its length in two bytes, the low one first |
| BleFrame.NoPartialDelivery | src/proto/ble_frame.c:70-79 | nothing is handed over before its last byte |
| BleFrame.Framer.FeedBytes | src/proto/ble_frame.c:20-80 | the loop that takes several bytes at once does what byte by byte would, and terminates |
| BleFrame.Framer.FeedPieces | src/proto/ble_frame.c:20-80 | any number of writes are as good as one, however the stream is cut; frames sent arrive |
| BleFrame.Framer.Reset | src/proto/ble_frame.c:9-18 | a reset forgets any part of a message |
| LineLink.LineTx.WriteAll | src/proto/line_tx.c:3-23 | the driver accepted exactly the prefix reported |
| LineLink.LineTx.Send | src/proto/line_tx.c:29-57 | the wire holds whole payloads and at most one non-empty prefix per partial drop, each a line of its own; a payload is dropped if and only if a wait for the driver gave up |
| LineLink.BoundaryIffWhole | src/proto/line_tx.c:36-54 | the stream is at a line boundary exactly when no repair is pending |
| LineLink.RxSplit | src/proto/line_proto.c:8-37 | the receiver does not depend on how the stream is cut |
| LineLink.ReceivesLines | src/proto/line_proto.c:8-37 | exactly the non-empty lines that fit are delivered, whatever ends them |
| LineLink.EndToEnd | src/proto/line_tx.c:29-57 | what was sent, torn prefixes included, arrives line by line, never two replies glued |
| LineLink.LineProto.FeedBytes | src/proto/line_proto.c:8-37 | the buffer with its overflow flag does what the byte automaton does |
| LineLink.LineProto.FeedPieces | src/proto/line_proto.c:8-37 | any number of reads are as good as one, however the stream is cut; lines sent arrive |
| Derive.LessThan | src/vault/derive.c:41-48 | exact comparison of 256-bit numbers |
| Derive.IsZero | src/vault/derive.c:50-58 | ORing the limbs decides whether the number is zero |
| Derive.AddModN | src/vault/derive.c:60-90 | (a + b) mod n for all a, b below n |
| Derive.KeyInRange | src/vault/derive.c:97-105 | exactly the keys in [1, n) |
| Derive.NodeImport | src/vault/derive.c:182-195 | a node with an unusable key is refused and nothing is written |
| Derive.ChildDataIs | src/vault/derive.c:131-155 | what is hashed is exactly a zero byte, the key, and the index in four bytes, big-endian |
| Derive.ChildIs | src/vault/derive.c:151-178 | the child at one index is (IL + k) mod n with the other half of the hash, and there is none exactly when IL >= n or the sum is zero |
| Derive.ChildHardened | src/vault/derive.c:124-180 | the BIP-32 child at the first index from the requested one on that has one, a key in [1, n), also when out is the parent |

## Left out

- Curve facts: that the formulas form a group, point decompression, and the
  exponentiation behind `fe_invert` are not proved; they enter as hypotheses or
  are the caller's.
- The contents of `b_window`, `b_comb_low` and `b_comb_high`, and the order of
  the base point: hypotheses of the methods that use them.
- Limb buffers updated in place: a field element is a record of ten limbs, so
  that one buffer may be an operand and the result is not shown; points are
  objects, and there it is.
- Field25519.FeCarry: asks for a margin of 2^25 below the bound documented for
  t0, as explained above.
- Constant-time selection (`fe_ccopy`, `fe_cswap`, the masks of `bn_add_mod_n`)
  is written as a choice; timing and the wiping of temporaries are not modelled.
- The SHA compression functions, HMAC and HKDF, BLAKE2b.
- Sha256Stream.Sha256.Final: ends at the chaining value, whatever the state of
  the compression function is; OneShot takes it down to bytes.
- Sha512Stream.Sha512.Final: likewise.
- `derive_master` and `derive_note_secret`: a range check and a call around the
  members modelled.
- Vault without storage (the in-RAM mode of the native tests) and the start-up
  path when storage did not come up, where every operation refuses.
- Torn flash writes: a failed save changes nothing, by assumption.
- Parsing of `k1` from hexadecimal in ImportSecret, listing and metadata
  queries.
- VaultRuns.RunThenReboot: says nothing after a removal that did not get its
  index written; RemovalSyncIffIndexed shows that RAM and flash disagree then.
- VaultRuns.RunConservesValue: for runs in which no id drawn is one that a failed
  removal left in the index; RunNeverLosesValue is about all runs.
- VaultRuns.RunConservesMoney: for creations with new secrets; RunApartIff shows
  that this is exactly what it takes. That the random source draws none twice is
  not something the model could show.
- Vault.Ledger.WipeAll: a wipe that did not verify is not a step of a run;
  FailedWipe says what it leaves.
- NULL pointers other than a missing prefix in EncodeUpper.
- LineLink.LineTx.WriteAll: a driver that reports more bytes than it was offered,
  on which the code fails closed, is excluded: what it wrote is not known.
- JSON parsing and the other dispatcher commands; the dispatcher model starts
  from parsed fields.
- BLE link generations, the USB ring and its clearing on DTR edges, drawing,
  screen sleep, board bring-up, and the test and bench scripts.
