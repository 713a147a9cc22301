# Verified models of a Bitcoin/Peercoin-derived node

This project models the parts of the node whose correctness is least obvious
from their code, and proves what they promise.  Each area has a plain
description (functions on values), the code's own form (methods that change
objects, arrays and buffers in place, proved against the description), and
lemmas about the description that hold for all inputs, states or runs.

- **Check queue** (`CheckQueue`): the lock and condition-variable protocol
  between one master and any number of workers.  A step is one critical section
  or one batch execution; runs are arbitrary interleavings, with spurious
  wake-ups.
- **Address manager** (`AddrTables`, `AddrOps`, `AddrSelect`, `AddrRuns`,
  `AddrEffects`, `AddrMan`, `AddrDisk`, `AddrRebuilt`, `AddrSerialize`): six interlocking
  tables, their consistency under all operations, what each operation and any run
  of them records, and the disk format that rebuilds the tables.  Keyed hashes are
  arbitrary functions, random numbers arbitrary choices.
- **Keccak** (`Keccak`, `KeccakLanes`, `KeccakSponge`, `Streaming`): lane
  complement, lane renaming, buffering and padding.  `Fips202` is the standard on
  strings of bits, with nothing of lanes or bytes in it; `KeccakBits` and
  `KeccakStandard` prove the rest against it.  Lane (x, y) has index x + 5y.
- **BLAKE-512/384** (`Blake`, `Streaming`): buffering and the two-word counter,
  with any compression function.
- **Merkle trees** (`Merkle`), **coins** (`VarInt`, `Amounts`, `Outputs`,
  `CoinRecords`, `Coins`, `Spending`, `UndoFormat`, `Binary`): the disk form of
  unspent outputs and of undo records, spending and undoing.
- **Stake modifiers** (`KernelSelection`, `Kernel`) and **sync-checkpoints**
  (`BlockTree`, `SyncCheckpoint`), both compiled in.
- **Numbers and text** (`Radix`, `Bignum`, `Compact`, `Base58`), **Bloom
  filter** (`ByteBits`, `Bloom`), **page locks** (`PageLocks`).  `Arith` holds
  facts about division.

Conditions that the code needs, each proved exact: `Check_` needs valid times
(`AddrRuns.StepPassesCheck`); `SelectTried`, documented to find the entry tried
least recently, returns the position a candidate was brought from
(src/addrman.cpp:141-148) and so finds it only if that did not move
(`AddrSelect.PositionIsRight`); coins need a version and a height that are not
negative and amounts that compression does not overflow
(`CoinRecords.RoundTrip`, `Amounts.AmountRoundTripExactly`), undo records a
version of 0 without a height (`UndoFormat.UndoRoundTrip`); a spend of the last
output at height 0 is not undone cleanly (`Spending.RestoreUndoesSpend`); an
interval yields two stake modifiers if a block under the earlier rule goes back to
it (`Kernel.OneModifierExactly`), which block times allow up to height 250000
(`Kernel.OneModifierOfTimely`, `Kernel.TwoInOneInterval`); a Bloom
filter loses keys if it has neither a hash function nor a bit, or if it wrongly
says it is full, which one read from the network does until its flags are
refreshed (`Bloom.InsertedNeverLost`).

Where a comment and the code differ, the model follows the code: the table at
src/serialize.h:278-284 gives three bytes for 16511 and a middle byte FD for 65535,
where its own formula and the code give FF 7F and 82 FE 7F
(`VarInt.EncodedExamples`).

## Model

| member | source | states |
|---|---|---|
| CheckQueue.Queue.constructor | src/checkqueue.h:121-123 | a new queue is empty, counts nothing and has no failure recorded |
| CheckQueue.Queue.Add | src/checkqueue.h:135-147 | appends the checks, raises `nTodo` by their number, and wakes no, one or all workers |
| CheckQueue.AddWakes | src/checkqueue.h:135-147 | of the sleeping workers one check added wakes the one picked, and more wake all; nobody else is touched |
| CheckQueue.Queue.BeginPass | src/checkqueue.h:69-80 | the clean-up of the last batch or the first entry; tells whether the master is to be notified |
| CheckQueue.Queue.Proceed | src/checkqueue.h:82-111 | the rest of the critical section: return, go to sleep, or take a batch, with the whole new shared state |
| CheckQueue.BatchIsShare | src/checkqueue.h:97-111 | the batch is the end of the queue in reverse: no more than one share of it among the threads there are and will be and no more than `nBatchSize`, as much as both allow, and one check at least |
| CheckQueue.Queue.TakeBatch | src/checkqueue.h:101-110 | the batch is the end of the queue in reverse, between 1 and `nBatchSize` checks, and leaves the queue |
| CheckQueue.Queue.ResumeWait | src/checkqueue.h:92-94 | a thread that wakes is no longer idle |
| CheckQueue.RunBatch | src/checkqueue.h:112-116 | the verdict is the old one and that of every check of the batch |
| CheckQueue.StepInv | src/checkqueue.h:61-118 | every critical section and batch execution of any thread keeps counters, verdicts and the location of every check |
| CheckQueue.WaitIsConjunction | src/checkqueue.h:61-147 | for any number of workers and rounds and every interleaving, each `Wait` returns exactly the conjunction of the checks added since the one before; each check left the queue once, and no failure passes into the next round |
| CheckQueue.CountersCorrect | src/checkqueue.h:67-118 | at every lock release `nTodo` is the queue plus the held batches and `nTotal - nIdle` the number of batch holders; between rounds the controller's assertions hold |
| CheckQueue.NeverStuck | src/checkqueue.h:82-95 | inside `Wait` some thread always has a step that changes something; a master asleep without signal leaves an empty queue and a worker with a batch, whose step it is |
| CheckQueue.StepsTowardsReturn | src/checkqueue.h:61-118 | while the master waits every step that changes the state lowers a measure |
| CheckQueue.WaitEnds | src/checkqueue.h:130-133 | so `Wait` returns within a bounded number of such steps |
| AddrMan.AddrMan.Create | src/addrman.cpp:99-109 | the new entry is in both maps and at the end of the random vector under a fresh id |
| AddrMan.AddrMan.SwapRandom | src/addrman.cpp:111-129 | two positions of the random vector and the positions recorded in their entries are exchanged |
| AddrMan.AddrMan.SelectTried | src/addrman.cpp:131-153 | up to four draws bring entries to the front of the bucket; it returns the place that the entry of the deciding round was brought from, -1 for an empty bucket |
| AddrSelect.InspectedStays | src/addrman.cpp:139-150 | the entry that a round inspects stays where the round put it |
| AddrSelect.DecidingIs | src/addrman.cpp:146-149 | the deciding round inspected the least last success, the first of equal ones |
| AddrSelect.PositionFits | src/addrman.cpp:131-153 | the bucket is permuted and the position is in it |
| AddrSelect.PositionIsRight | src/addrman.cpp:135-152 | the position returned holds the entry tried least recently of those inspected exactly if the deciding round drew its own place |
| AddrSelect.WrongPosition | src/addrman.cpp:141-149 | in any bucket of different entries, draws that bring one from behind the inspected places to the front, where it is chosen, return the position of the entry it changed places with |
| AddrSelect.PickedSame | src/addrman.cpp:131-153 | the outcome of the draws depends only on the last successes of the bucket's entries |
| AddrSelect.TriedBucketsDiffer | src/addrman.cpp:471-479 | tried buckets of consistent tables hold different entries |
| AddrMan.AddrMan.ShrinkNew | src/addrman.cpp:155-207 | exactly one reference leaves the bucket, of the first deletable entry or else of the oldest of the four picked; the entry goes with its last reference |
| AddrMan.AddrMan.MakeTried | src/addrman.cpp:209-265 | all tables after the move into the tried table; from a full bucket the entry evicted, into a new bucket with room, is the one at the position that `SelectTried` gives for the draws made |
| AddrMan.AddrMan.BucketOf | src/addrman.cpp:293-310 | finds a new bucket that holds the entry, or says correctly that none does |
| AddrMan.AddrMan.Good_ | src/addrman.cpp:267-316 | all tables afterwards are those of the specification, with the bucket and position that `SelectTried` gives when an entry is evicted; the branch for an entry in no bucket is dead |
| AddrMan.AddrMan.Add_ | src/addrman.cpp:318-374 | all tables afterwards and the return value, for known and new addresses, with or without making room |
| AddrEffects.AnnouncedAgain | src/addrman.cpp:325-372 | the time recorded and the services of a known address announced again, and exactly when it gains a reference: if there is still something newer, it is not tried, has less than four, the dice fall and the bucket lacks it |
| AddrEffects.RecordedAddsNothing | src/addrman.cpp:328-341 | without a penalty, a time that gets recorded adds no reference |
| AddrEffects.AnnouncedFirst | src/addrman.cpp:356-372 | what is known of a new address, its one reference and its bucket |
| AddrMan.AddrMan.Attempt_ | src/addrman.cpp:376-393 | only time of last try and attempts of that very service change |
| AddrMan.AddrMan.Connected_ | src/addrman.cpp:515-533 | only the time of that very service changes, and only after 20 minutes |
| AddrMan.AddrMan.GetAddr_ | src/addrman.cpp:499-513 | the share of entries it returns are known ones with different addresses; only the order of the random vector changes |
| AddrEffects.ShareGiven | src/addrman.cpp:499-505 | 23 of a hundred rounded down, and at most 2500 |
| AddrMan.AddrMan.Check_ | src/addrman.cpp:440-496 | answers 0 exactly if entries, indexes, counters and buckets agree and the times are valid |
| AddrOps.DropKeeps | src/addrman.cpp:155-207 | dropping any reference of a bucket keeps all structures consistent |
| AddrOps.AddedKeeps | src/addrman.cpp:318-374 | `Add_` keeps all structures and bucket limits consistent, whatever the random choices |
| AddrOps.MadeTriedKeeps | src/addrman.cpp:209-265 | `MakeTried` keeps them, with or without eviction; the evicted entry finds its place |
| AddrRuns.GoodKeeps | src/addrman.cpp:267-316 | `Good_` keeps them, and an entry outside the tried table is in some new bucket |
| AddrEffects.MarkedGoodMoves | src/addrman.cpp:209-265 | marked as good an address is in the tried bucket of its service and no new one; the one evicted for it is in the new bucket of its own source if that has room, else in one that was left |
| AddrEffects.StepFollows | src/addrman.cpp:267-393 | after any operation every entry that is still known has exactly the times, attempts and services that operation gives it, and the others as before |
| AddrEffects.RunRemembers | src/addrman.cpp:267-393 | over any run an entry that stays known has the time of its service's last success and the count of attempts since |
| AddrEffects.KeptExactly | src/addrman.cpp:41-61 | which entries are not terrible, by the windows of time and the attempts they have left |
| AddrRuns.ShuffledKeeps | src/addrman.cpp:499-513 | any shuffle of the random vector keeps them |
| AddrRuns.StepKeeps | src/addrman.cpp:267-533 | so does every public operation |
| AddrRuns.CheckExact | src/addrman.cpp:440-496 | consistent tables pass `Check_` exactly if their times are valid |
| AddrRuns.RunsPassCheck | src/addrman.cpp:440-496 | after every run from the empty manager with positive times for `Good_` and none before 0 for `Attempt_`, `Check_` answers 0; in any case at most 256*64 + 64*64 addresses are held |
| AddrRuns.StepPassesCheck | src/addrman.cpp:267-393 | a manager that passes `Check_` passes it after an operation exactly if that had a valid time or did not concern a known service |
| AddrRuns.GoodAtZeroFails | src/addrman.cpp:267-316 | so a new address marked as good at time 0 is enough for `Check_` to fail: the run of these two calls |
| AddrRuns.GetAddrDistinct | src/addrman.cpp:499-513 | different positions of the random vector are different addresses |
| AddrTables.Totals | src/addrman.cpp:440-496 | random vector, entry map and counters have the same size, within the bucket limits |
| AddrTables.FindBucket | src/addrman.cpp:293-310 | an entry outside the tried table is in some new bucket |
| AddrSerialize.Write | src/addrman.h:281-317 | the writer produces the image of the tables: entries in id order, buckets as indexes |
| AddrSerialize.Read | src/addrman.h:319-377 | the reader rebuilds exactly the tables that the image determines |
| AddrSerialize.ReadOneTried | src/addrman.h:341-360 | a tried entry is placed in its bucket, or counted as lost when that is full |
| AddrDisk.ReadBack | src/addrman.h:248-380 | reading back what was written gives the same entries, memberships, reference counts and tried buckets under new ids, none lost, and consistent tables |
| AddrDisk.NoneLost | src/addrman.h:341-360 | no tried entry of a consistent manager is lost, so its counters are kept |
| AddrRebuilt.OtherBucketCount | src/addrman.h:319-377 | from a file with another number of new buckets, each new entry has one reference, in the bucket of its own source, and no bucket holds anything else |
| AddrDisk.ReadBackPassesCheck | src/addrman.h:248-380 | a manager that passes `Check_` passes it after being written and read |
| Keccak.PiIsTheStandardStep | src/keccak.c:1139-1156 | the table of lane origins is the pi step of section 3.2.3 of FIPS 202 |
| Keccak.OffsetsAreTriangular | src/keccak.c:1016-1045 | the rotation offsets are the triangular numbers along the walk of section 3.2.2 of FIPS 202 |
| Keccak.ConstantsAreGenerated | src/keccak.c:136-149 | the round constants are those of the shift register of section 3.2.5 of FIPS 202 |
| KeccakBits.RolBit | src/sph_types.h:939 | rotation by k takes bit z from place z - k modulo 64, for all k |
| KeccakBits.ThetaOnBits | src/keccak.c:958-1014 | theta on lanes is, bit by bit, section 3.2.1 of FIPS 202 |
| KeccakBits.RhoOnBits | src/keccak.c:1016-1045 | rho is section 3.2.2, with the offsets found along the walk |
| KeccakBits.PiOnBits | src/keccak.c:1139-1156 | pi is section 3.2.3 |
| KeccakBits.ChiOnBits | src/keccak.c:1047-1135 | chi is section 3.2.4 |
| KeccakBits.IotaOnBits | src/keccak.c:136-149 | iota is section 3.2.5, with the bits of the shift register |
| KeccakBits.PermutationOnBits | src/keccak.c:1392-1467 | the 24 rounds on lanes are Keccak-f[1600] on strings of 1600 bits |
| Keccak.MaskedTheta | src/keccak.c:958-1014 | theta turns the mask of complemented lanes into the next one, for all states |
| Keccak.MaskedPi | src/keccak.c:1139-1156 | renaming takes that mask to the one the gates expect |
| Keccak.MaskedKhi | src/keccak.c:1047-1135 | the five rows of gates on complemented lanes give plain chi, complemented as the next round expects |
| Keccak.MaskedRound | src/keccak.c:1392-1397 | a round of the optimised form on masked lanes is the plain round, masked |
| Keccak.MaskedRounds | src/keccak.c:1392-1467 | at every round boundary the lanes XORed with the mask 1, 2, 8, 12, 17, 20 are those of plain Keccak-f[1600] |
| KeccakLanes.ThElt | src/keccak.c:958-973 | the reassociated XORs of `TH_ELT` are theta's contribution to a column, also bit by bit |
| KeccakLanes.ThetaInPlace | src/keccak.c:958-1014 | in place and under any names of the lanes, the result is theta, on lanes and on the bits of FIPS 202 |
| KeccakLanes.RhoInPlace | src/keccak.c:1016-1045 | likewise rho |
| KeccakLanes.KhiInPlace | src/keccak.c:1058-1135 | likewise the gates, row by row |
| KeccakLanes.RenamingIsPi | src/keccak.c:1139-1156 | taking the next names instead of moving lanes is the pi step, for all eight renamings |
| KeccakLanes.KfElt | src/keccak.c:1392-1397 | one renamed round in place is one optimised round on the named lanes |
| KeccakLanes.CyclesNamed | src/keccak.c:1313-1347 | the eight cycles of `P8_TO_P0` put every lane where its name says |
| KeccakLanes.P8ToP0 | src/keccak.c:1313-1347 | likewise in place |
| KeccakLanes.KeccakF1600 | src/keccak.c:1454-1467 | three times eight renamed rounds and the cycles are the 24 rounds; with the six lanes complemented back, the permutation of FIPS 202 on bits |
| KeccakSponge.MaskedStep | src/keccak.c:183-188 | absorbing a block into masked lanes is absorbing it into plain ones, masked |
| KeccakSponge.LaneRoundTrip | src/keccak.c:1643-1644 | encoding a lane as bytes and decoding it gives it back |
| KeccakSponge.ClosingIsPadding | src/keccak.c:1618-1634 | the closing bytes are, bit by bit, the extra bits and the pad10*1 of section 5.1 of FIPS 202, up to a whole block, in every branch |
| KeccakSponge.PaddedBits | src/keccak.c:1618-1634 | the padded message as bits |
| KeccakSponge.DigestIsSponge | src/keccak.c:1525-1647 | fed in any chunks and closed with any extra bits, the digest is that of the sponge over the plain permutation |
| KeccakStandard.ByteOfLane | src/keccak.c:1643-1644 | bit j of byte k of an encoded lane is its bit 8k + j |
| KeccakStandard.XorInOnBits | src/keccak.c:183-188 | a block is added to the first bits of the state in order |
| KeccakStandard.SpongeOnBits | src/keccak.c:1607-1647 | the sponge on lanes and bytes is the sponge of section 4 of FIPS 202 on strings of bits |
| KeccakStandard.DigestIsStandard | src/keccak.c:1525-1647 | so, fed in any chunks and closed with any extra bits, the digest is the one FIPS 202 defines for those bits |
| KeccakSponge.Context.Init | src/keccak.c:1525-1566 | the start state is the complemented zero state, with the rate for the digest size |
| KeccakSponge.Context.Core | src/keccak.c:1569-1603 | state and buffer after more data are those of absorbing buffer and data |
| KeccakSponge.Context.InputBuf | src/keccak.c:183-188 | the block is XORed into the first lanes |
| KeccakSponge.Context.Complement | src/keccak.c:1636-1642 | the six lanes are complemented and no other |
| KeccakSponge.Context.Close | src/keccak.c:1607-1647 | the digest of the specification, and a context as new |
| Streaming.ChunksDoNotMatter | src/keccak.c:1569-1603 | however data is cut into chunks, feeding them is feeding it whole |
| Streaming.AbsorbMore | src/keccak.c:1582-1600 | absorbing in two parts carries the rest of the first part over |
| Streaming.AbsorbThrough | src/keccak.c:1582-1600 | block steps that commute with a map of states absorb alike |
| Blake.StepCounts | src/blake.c:933-934 | the two words count modulo 2^128, carry included |
| Blake.AbsorbHashes | src/blake.c:922-938 | whole blocks are compressed with the number of message bits absorbed so far |
| Blake.HeadByteBits | src/blake.c:959-960 | the byte behind the message holds the extra bits and a 1 |
| Blake.PaddingIsStandard | src/blake.c:972-989 | the padding is a 1, the fewest 0s and the flag bit, up to the place of the length |
| Blake.BeAt | src/blake.c:976-977 | the big-endian bytes of a word |
| Blake.DigestAt | src/blake.c:990-994 | byte 8k + j of the digest is byte j from the top of word k |
| Blake.SetBackCounts | src/blake.c:963-971 | each of the three ways to set the counter back makes the next block see the message bits so far, or 0 if it holds none |
| Blake.ClosedHashes | src/blake.c:943-994 | closing hashes the held bytes and the padding with the standard counters, in one block or two |
| Blake.DigestIsReference | src/blake.c:895-994 | fed in any chunks and closed, the chain value is the iterated hash of the padded message, with the counters of section 2.2 of the BLAKE proposal |
| Blake.Context.constructor | src/blake.c:895-903 | the start value, the salt and a counter of 0 |
| Blake.Context.Update | src/blake.c:905-941 | state and buffer after more data are those of absorbing buffer and data |
| Blake.Context.CompressBlock | src/blake.c:932-937 | counts and compresses the full buffer |
| Blake.Context.SetCounterBack | src/blake.c:963-971 | the words of the specification |
| Blake.Context.Close | src/blake.c:943-994 | the closed state of the specification and the digest words in order |
| Merkle.BranchLeadsToRoot | src/core.cpp:252-281 | the branch of any leaf of any non-empty list leads to the root, and is as long as the tree is deep |
| Merkle.OpeningsCollide | src/core.cpp:268-281 | two different openings of one hash from one index hash two different pairs to one value on the way |
| Merkle.ForgeryCollides | src/core.cpp:252-281 | so does anything but a leaf and its branch that leads to the root from the leaf's index, against the leaf and its branch |
| Merkle.BranchIsUnique | src/core.cpp:268-281 | if pairs do not collide, nothing but the leaf and its branch leads to the root from that index at that length |
| Merkle.ListsCollide | src/core.cpp:233-250 | two different lists of one length with one root hash two different pairs to one value at some level |
| Merkle.PaddedRoot | src/core.cpp:239-248 | clipping indexes is filling the tree up to a power of two |
| Merkle.RootSplits | src/core.cpp:224-249 | two full trees side by side make a tree whose root is the pair of their roots, left one first |
| Merkle.SameRootExactly | src/core.cpp:233-250 | if pairs do not collide, lists of equal depth share a root exactly if they fill their trees up to the same leaves |
| Merkle.SameRootCollides | src/core.cpp:233-250 | if they share a root and do not, two different pairs hash to one value at some level |
| Merkle.RootDeterminesLeaves | src/core.cpp:233-250 | then root and number of leaves determine the leaves |
| Merkle.OddLastLeafRepeats | src/core.cpp:239-248 | the root alone does not, as repeating an odd last leaf shows |
| Merkle.FlatEndsWithRoot | src/core.cpp:249 | the flat tree ends with the root |
| Merkle.Block.BuildMerkleTree | src/core.cpp:233-250 | the vector holds all levels and the result is the root, 0 without transactions |
| Merkle.Block.GetMerkleBranch | src/core.cpp:252-266 | the branch of the index, from an empty or current tree |
| Merkle.Block.CheckMerkleBranch | src/core.cpp:268-281 | the fold of the branch over the value, 0 for index -1 |
| Merkle.Block.CheckOwnBranch | src/core.cpp:252-281 | a block's own branches check out |
| VarInt.WriteVarInt | src/serialize.h:298-313 | appends the base-128 digits, highest first |
| VarInt.EncodedIs | src/serialize.h:258-283 | all bytes but the last are marked, and k digits to base 128 count on from the least number of k digits |
| VarInt.EncodedExamples | src/serialize.h:278-284 | the bytes of the numbers in that comment |
| VarInt.ReadVarInt | src/serialize.h:315-328 | reads one number, wrapping to its type, or fails at the end of the stream |
| VarInt.GetSizeOfVarInt | src/serialize.h:285-296 | the number of bytes written |
| VarInt.BufferFits | src/serialize.h:301 | the writer's buffer is large enough for 32 and 64 bits |
| VarInt.VarIntRoundTrip | src/serialize.h:298-328 | what the type holds reads back and nothing more is consumed |
| VarInt.SignedRoundTrip | src/serialize.h:298-328 | a signed number reads back exactly if it is not negative |
| VarInt.UniqueEncoding | src/serialize.h:271-276 | every number has one encoding: what reads without wrapping is the number's encoding |
| Amounts.CompressAmount | src/core.cpp:140-157 | the compressed amount modulo 2^64 |
| Amounts.CompressedForm | src/core.cpp:131-157 | a last digit d behind q with e zeros compresses to 1 + 10(9q + d - 1) + e |
| Amounts.NineZerosForm | src/core.cpp:131-157 | and m with nine zeros to 10m |
| Amounts.DecompressAmount | src/core.cpp:159-183 | the amount modulo 2^64 |
| Amounts.DecompressCompress | src/core.cpp:131-183 | over all numbers decompression undoes compression |
| Amounts.CompressDecompress | src/core.cpp:131-183 | and the other way round |
| Amounts.AmountRoundTripExactly | src/core.cpp:131-183 | of the numbers of 64 bits exactly those come back that end in 0 or have 9n + d - 9 < 2^64, with d the last digit; all others are lost |
| Amounts.CompressibleIs | src/core.cpp:140-157 | these are the ones whose compression does not overflow |
| Amounts.MoneyRoundTrip | src/core.cpp:131-183 | no overflow and an exact round trip on 64 bits for all amounts of money |
| Outputs.ScriptRoundTrip | src/script.h:650-675 | a script reads back, in its short form or written out, if the short forms stand for their scripts |
| Outputs.ScriptForms | src/script.h:650-675 | a script takes 21 bytes, 33, or its own behind its length and six, as its first number tells |
| Outputs.OutRoundTripExactly | src/core.h:242-266 | reading an output back consumes exactly its bytes and keeps its script, and gives the output exactly if its amount is compressible, for all signed values |
| Outputs.CompressorSerialize | src/core.h:254-265 | appends the compact form of the output |
| Outputs.CompressorUnserialize | src/core.h:254-265 | reads one output, or fails at the end of the stream |
| CoinRecords.NothingPastMask | src/core.cpp:188-204 | no output past the mask is unspent |
| CoinRecords.CodeIsPositive | src/core.h:431-436 | the assertion of the writer holds exactly where coins are not pruned |
| CoinRecords.MaskReads | src/core.h:493-503 | reading the mask stops behind its last byte |
| CoinRecords.MaskBitIs | src/core.h:463-471 | bit i of byte b of the mask is set exactly if output 2 + 8b + i is unspent |
| CoinRecords.HeaderBits | src/core.h:443-459 | the header code: coinbase flag, outputs 0 and 1, and the number of mask bytes that are not zero, less one if both are spent |
| CoinRecords.ReadWritten | src/core.h:453-513 | reading what was written consumes exactly its bytes and gives the cleaned coins with what is kept of each amount; of a negative version or height the low seven bits |
| CoinRecords.RoundTrip | src/core.h:453-513 | non-pruned coins whose spent outputs are empty come back after `Cleanup` exactly if version and height are not negative and all amounts compressible |
| CoinRecords.MoneyComesBack | src/core.h:453-513 | so coins that hold money come back |
| CoinRecords.CleanedKeeps | src/core.h:398-403 | `Cleanup` removes spent outputs at the end and no others; nothing is left exactly if all were spent |
| CoinRecords.CleanedUnique | src/core.h:398-403 | cleaned lists that hold the same at every position are equal |
| Coins.CCoins.Cleanup | src/core.h:398-403 | the cleaned outputs |
| Coins.CCoins.CalcMaskSize | src/core.cpp:188-204 | the mask's length and how many of its bytes are not zero |
| Coins.CCoins.Serialize | src/core.h:453-479 | appends the disk form |
| Coins.CCoins.GetSerializeSize | src/core.h:429-450 | the number of bytes that `Serialize` appends |
| Coins.CCoins.Unserialize | src/core.h:482-513 | the coins and the rest of the stream as the format says |
| Coins.CCoins.Spend | src/core.cpp:206-220 | the coins afterwards and the undo record |
| Coins.CCoins.Restore | src/main.cpp:1484-1508 | the coins with the output put back, and whether they were found as expected |
| Spending.SpentOnce | src/core.cpp:206-220 | over any attempts an output is spent at most once: a spend succeeds exactly if it was there and was not tried before |
| Spending.AfterAt | src/core.cpp:206-220 | the outputs tried are gone, the others as before |
| Spending.OrderDoesNotMatter | src/core.cpp:206-220 | attempts on the same outputs in any order leave the same coins |
| Spending.ValueIsConserved | src/core.cpp:206-220 | value available plus value in undo records is constant |
| Spending.LastSpendKeepsMetadata | src/core.cpp:214-218 | the undo record names height, coinbase flag and version exactly in the spend that leaves nothing, after which no spend succeeds |
| Spending.CleanExactly | src/main.cpp:1484-1508 | a restore is clean exactly if the output was spent and the record has metadata just when nothing was left; what every position and the metadata are afterwards |
| Spending.RestoreUndoesSpend | src/main.cpp:1484-1508 | undoing a spend gives the coins back without complaint, unless the last output went at height 0 |
| Spending.UnwindingRestores | src/main.cpp:1484-1508 | taking all undo records back in reverse gives the coins before the run |
| UndoFormat.Serialize | src/core.h:291-297 | appends the undo record |
| UndoFormat.Unserialize | src/core.h:299-308 | reads one undo record |
| UndoFormat.UndoRoundTrip | src/core.h:285-308 | an undo record comes back exactly if its height is below 2^31, its version is not negative, and 0 without a height, and its amount is compressible |
| KernelSelection.SelectBlockFromCandidates | src/kernel.cpp:107-151 | the unselected candidate of least rank with time up to the stop, or else the earliest unselected one; fails exactly if none is left |
| KernelSelection.PickCompares | src/kernel.cpp:122-135 | how the pick's selection hash compares with that of any other candidate up to the stop, for each of the four cases of proof-of-work and proof-of-stake |
| KernelSelection.StakeIsFavored | src/kernel.cpp:127-131 | with 256-bit hashes a proof-of-work block hashing to 2^224 or more is never picked while a proof-of-stake block is there to pick |
| KernelSelection.SectionLengths | src/kernel.cpp:85-91 | no section is shorter than the one before, and the last is the modifier interval and the ratio times the first |
| KernelSelection.GetStakeModifierSelectionInterval | src/kernel.cpp:94-102 | the sum of the 64 sections |
| KernelSelection.SelectRounds | src/kernel.cpp:231-249 | all rounds succeed, and the modifier is made of the entropy bits of the picks in order |
| KernelSelection.PicksDiffer | src/kernel.cpp:236-249 | the picks are different blocks |
| KernelSelection.RunIsUnique | src/kernel.cpp:236-249 | there is one run of a given length |
| KernelSelection.ModifierBits | src/kernel.cpp:243 | bit r of the modifier is the entropy bit of pick r, and there are no more bits |
| Kernel.GetLastStakeModifier | src/kernel.cpp:71-83 | modifier and time of the nearest generating block, failing exactly if there is none |
| Kernel.Collect | src/kernel.cpp:221-227 | the blocks at the end of the chain with times from the start on |
| Kernel.Sort | src/kernel.cpp:228-229 | the candidates in order of time, and of hash where times agree |
| Kernel.SortedUnique | src/kernel.cpp:229 | sorting leaves no choice |
| Kernel.ComputeNextStakeModifier | src/kernel.cpp:166-281 | modifier and flag are what the specification of the next block says; fails exactly if no block generated one |
| Kernel.NextIsUnique | src/kernel.cpp:166-281 | chain and time determine both |
| Kernel.LastStop | src/kernel.cpp:220-238 | with 64 candidates or more the last pick is the best one left up to the time of the block before, rounded down to the modifier interval |
| Kernel.ModifierOfNearest | src/kernel.cpp:71-83 | on a chain that stores the results every block has the modifier of its nearest generating ancestor-or-self |
| Kernel.BackdatedExactly | src/kernel.cpp:188-213 | a block generates in no later interval than the last modifier exactly if it is under the earlier rule, at or before that interval, and behind a block in a later one |
| Kernel.OneModifierExactly | src/kernel.cpp:188-213 | intervals of generating blocks strictly increase, each yielding at most one modifier, exactly if no block of the chain is so backdated |
| Kernel.IntervalsIncrease | src/kernel.cpp:188-201 | so they do between any two generating blocks where the v0.4 rule holds |
| Kernel.OneModifierOfTimely | src/main.cpp:2322-2328 | on a chain whose times `AcceptBlock` lets through, only blocks below the height of the spacing rule can break it |
| Kernel.TwoInOneInterval | src/kernel.cpp:188-213 | and they do: four blocks, each later than the median of those before it, store what the code computes, and the fourth generates in the first one's interval |
| Kernel.GetKernelStakeModifier | src/kernel.cpp:285-322 | modifier, height and time of the first block that generated one a selection interval later; fails exactly if there is none |
| Kernel.KernelModifierIsStable | src/kernel.cpp:285-322 | more blocks at the end do not change it |
| SyncCheckpoint.Checkpoints.ValidateSyncCheckpoint | src/checkpoints.cpp:125-165 | accepts exactly strict descendants of the checkpoint, and remembers a block in conflict |
| SyncCheckpoint.Checkpoints.WriteSyncCheckpoint | src/checkpoints.cpp:167-182 | moves the checkpoint exactly if the database commits |
| SyncCheckpoint.Checkpoints.AcceptPendingSyncCheckpoint | src/checkpoints.cpp:184-226 | all fields afterwards, for every answer of disk and chain |
| SyncCheckpoint.Checkpoints.ProcessSyncCheckpoint | src/checkpoints.cpp:426-474 | all fields afterwards, for every answer of disk and chain |
| SyncCheckpoint.Checkpoints.CheckSync | src/checkpoints.cpp:243-268 | the trace-back decides descent from the checkpoint |
| SyncCheckpoint.NextValid | src/checkpoints.cpp:125-226 | every step keeps the checkpoint a known block and moves it only to a strict descendant |
| SyncCheckpoint.RunDescends | src/checkpoints.cpp:125-226 | over any run the checkpoint is the first one or descends from it |
| SyncCheckpoint.CheckpointsAdvance | src/checkpoints.cpp:125-226 | a checkpoint is left only for a strict descendant |
| SyncCheckpoint.PassesExactly | src/checkpoints.cpp:243-268 | off the test network an unknown block passes exactly if its parent is the checkpoint or descends from it |
| SyncCheckpoint.NewBlocksDescend | src/checkpoints.cpp:243-268 | a new block that passes strictly descends from every checkpoint accepted before |
| SyncCheckpoint.ConflictStays | src/checkpoints.cpp:125-226 | over any run, a block in conflict with a checkpoint never becomes the checkpoint, processed at once or from pending |
| SyncCheckpoint.AdoptedExactly | src/checkpoints.cpp:426-474 | a message about a known block makes it the checkpoint exactly if it is signed, the block strictly descends from the checkpoint, and disk, chain and database succeed; what changes in either case |
| SyncCheckpoint.PendingExactly | src/checkpoints.cpp:184-226 | a waiting block that became known is adopted, dropped or goes on waiting, each exactly when |
| SyncCheckpoint.PendingIsAdopted | src/checkpoints.cpp:184-226 | over any run without another message: a signed message about an unknown block is kept until the block is known and is then adopted, with its message, if the block strictly descends from the checkpoint |
| SyncCheckpoint.KnownPasses | src/checkpoints.cpp:243-268 | a known block passes exactly if it is the checkpoint, descends from it or is below it |
| BlockTree.DescendsTransitive | src/checkpoints.cpp:139-160 | descent along parents is transitive |
| BlockTree.AddedDescends | src/checkpoints.cpp:251-258 | a new block strictly descends from what its parent is or descends from |
| BlockTree.DescendsByParent | src/checkpoints.cpp:139-160 | descent is being the block or having a parent that descends |
| Bignum.VchRoundTrip | src/bignum.h:261-286 | every number comes back through `getvch` and `setvch` |
| Bignum.VchCanonical | src/bignum.h:261-286 | a byte vector comes back exactly if no byte of it can be left out |
| Bignum.LowestByteFirst | src/bignum.h:261-286 | a byte put in front adds itself, with the number's sign, to 256 times the number |
| Bignum.SetInt64 | src/bignum.h:131-172 | the number set is the one given, for all 64-bit values |
| Compact.GetCompact | src/bignum.h:329-351 | exponent, leading digits and sign, modulo 2^32 |
| Compact.SetCompact | src/bignum.h:310-327 | the number that a word stands for |
| Compact.ExpandedIs | src/bignum.h:310-327 | a word with size e and digits w stands for w * 256^(e-3), rounded towards zero, with its sign |
| Compact.ExponentIs | src/bignum.h:331-346 | the exponent is the least size that leaves the sign bit free |
| Compact.RoundedError | src/bignum.h:310-351 | rounding is down and by less than one part in 2^15 |
| Compact.CompactIsIdempotent | src/bignum.h:310-351 | compacting the expanded word gives the same word, also for negative numbers |
| Compact.CompactIsMonotone | src/bignum.h:329-351 | a larger number has no smaller word |
| Compact.WordStandsForNumber | src/bignum.h:310-351 | on 32 bits the word stands for a positive number within that error exactly if the size fits its byte |
| Compact.FitsByteIs | src/bignum.h:310-351 | which is so exactly for numbers below 2^2039 |
| Radix.RewrittenTwice | src/base58.h:30-121 | changing the base and back gives the digits back, leading zeros included |
| Base58.EncodedSpells | src/base58.h:30-68 | the string spells the same number to base 58, behind one `1` for each zero byte in front |
| Base58.EncodeBase58 | src/base58.h:30-68 | the string of the specification |
| Base58.DecodeBase58 | src/base58.h:78-122 | fails exactly on strings the specification rejects, and otherwise gives their bytes |
| Base58.DecodeEncode | src/base58.h:30-122 | decoding an encoding gives the bytes back, for all byte strings |
| Base58.EncodeDecode | src/base58.h:30-122 | encoding what a string over the alphabet decodes to gives the string |
| Base58.SpaceAroundDoesNotMatter | src/base58.h:85-103 | white space around any string does not change its decoding or its failure |
| Base58.SixSpaces | src/base58.h:85-103 | white space is the six characters of the C locale |
| Base58.CheckIsExact | src/base58.h:135-163 | a string decodes to v exactly if it spells v and its checksum |
| Base58.CheckRoundTrip | src/base58.h:135-163 | so an encoding with checksum decodes to what was encoded |
| Base58.Base58Data.SetString | src/base58.h:214-230 | version and data, or both cleared; fails exactly if nothing was decoded |
| Base58.Base58Data.ToString | src/base58.h:237-242 | the string with checksum |
| Base58.SetFromString | src/base58.h:214-242 | `SetString(ToString())` restores version and data |
| ByteBits.WithBitAt | src/bloom.cpp:48-49 | setting a bit sets that one and no other |
| Bloom.BloomFilter.insert | src/bloom.cpp:40-51 | all bits of the key are set, unless the filter says it is full |
| Bloom.BloomFilter.contains | src/bloom.cpp:67-81 | whether the flags or all bits of the key say so |
| Bloom.BloomFilter.IsRelevantAndUpdate | src/bloom.cpp:102-166 | the filter afterwards and the answer of the specification |
| Bloom.BloomFilter.UpdateEmptyFull | src/bloom.cpp:168-182 | both flags tell the truth |
| Bloom.MarkedOnly | src/bloom.cpp:44-49 | insertion sets no bit but those of the key |
| Bloom.KeyBit | src/bloom.cpp:31-51 | the bits of a key are the hashes with seeds 0xFBA4C795 apart; inserting sets them, and of a key that is found they are set |
| Bloom.OtherBit | src/bloom.cpp:40-51 | no other bit is set |
| Bloom.MissingBit | src/bloom.cpp:67-81 | and a key that is not found lacks one of them |
| Bloom.RelevantExactly | src/bloom.cpp:102-166 | a filter without updates finds a transaction relevant exactly if its hash, a push of an output, an outpoint it spends or a push of an input is in it |
| Bloom.TouchedIsRelevant | src/bloom.cpp:102-166 | and any other one finds it relevant if that is so |
| Bloom.InsertedNeverLost | src/bloom.cpp:40-81 | for every filter with a byte: an inserted key is found after any later inserts, checks and refreshes exactly if the filter, when it says it is full, has the key's bits and some bit, and otherwise has a hash function or a bit |
| Bloom.MatchedOutputNeverLost | src/bloom.cpp:117-147 | the outpoint of an output that matched and is of a kind to be added is found from then on under exactly the same condition |
| Bloom.NoFalseNegatives | src/bloom.cpp:40-81 | so no key is lost by a filter with a hash function whose flags tell the truth |
| Bloom.MatchedOutputIsTracked | src/bloom.cpp:117-166 | then every later transaction that spends it is relevant; with `BLOOM_UPDATE_ALL` for all outputs, with the key-only flag for key scripts |
| PageLocks.LockedPageManager.LockRange | src/allocators.h:57-77 | afterwards every page's count is the number of live ranges touching it, the new one included, and system calls alternate |
| PageLocks.LockedPageManager.UnlockRange | src/allocators.h:80-100 | the same without the range; the assertion never fails |
| PageLocks.LockedPageManager.LockedWhileTouched | src/allocators.h:57-100 | a page is locked exactly while some live range touches it |
| PageLocks.LockedPageManager.GetLockedPageCount | src/allocators.h:102-107 | the number of pages the system has locked |
| PageLocks.TouchedPages | src/allocators.h:61-64 | the loop meets exactly the pages that hold a byte of the range |
| PageLocks.CountLess | src/allocators.h:80-100 | ending a range takes one off exactly the pages it touches |
| PageLocks.CountPositive | src/allocators.h:57-100 | a count is positive exactly if some live range touches the page |

## Left out

- `CAddrMan::Select_` and `GetChance` use floating point, and `Select_` ends only with probability 1.
- A stream of address data that ends early or was written by hand: the reader is modelled on complete images with at most 256 buckets; bytes of its records are not modelled, nor the key and the version byte.
- Service flags are sets of bits, network addresses and services opaque values, keyed hashes functions.
- The master and the workers are threads 0 and above; destroying the queue and `fQuit` never being set are as in the code; the counters do not wrap at 32 bits.
- The unrolled Keccak macros are loops over lanes here; the 32-bit form, which interleaves bits, is not modelled, nor are unroll counts other than 8.
- COMPRESS64, SHA-256, RIPEMD-160, MurmurHash and signatures are functions without properties; blake32 repeats blake64 with other sizes.
- Short forms of scripts: what `CScriptCompressor` recognizes and how public keys decompress is a parameter, assumed to give scripts back.
- CCoins.Unserialize: nothing is promised of the object when the stream ends too early, where the code throws.
- Blocks of the index that `mapBlockIndex` misses make `SelectBlockFromCandidates` fail; what it then returns is not stated.
- Of `AcceptBlock` only the tests of a block's time against the blocks before it are modelled (`Kernel.Timely`; src/main.cpp:2322-2328, src/main.h:2027-2039, src/mannastake.cpp:258-265).
- `mapStakeModifierCheckpoints`, the v0.3 kernel hash and `GetWeight` would add easy members.
- `ResetSyncCheckpoint` may move the checkpoint back on purpose; relaying and asking peers for blocks is input and output; reading blocks and switching the best chain are parameters.
- OpenSSL's big numbers are integers; the four size bytes of its exchange format and byte vectors of 2^32 bytes are not modelled.
- The size of a Bloom filter and its number of hash functions are computed in floating point and are parameters; scripts are lists of the data they push; a filter without bytes is not modelled.
- LockRange: ranges that reach the last page of the address space, where the loop's counter would wrap; counts of 2^31 ranges.
- src/bmw.c, src/groestl.c, src/jh.c, src/luffa.c, src/cubehash.c and src/echo.c repeat the absorb loop; key handling, wallets, RPC, databases and networking would add easy members or are input and output.
