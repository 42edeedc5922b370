# Retro Rocket: a verified model of its hard parts

A Dafny model of four parts of the Retro Rocket kernel and the proofs of what they promise:

- **Freestanding binary64 arithmetic** (`include/maths.h`): `scalbn`, `frexp` and `nearbyint`,
  against the operations of IEEE 754-2019. A finite double is a whole number of units of 2^-1074,
  so everything is integer arithmetic; `*`, `+` and `-` round the exact result once, to nearest,
  ties to even. `Rounding` proves that this rounding is the nearest representable value and the only
  one, so "correctly rounded" is not a matter of the model's own code.
- **The RetroFS free-space map** (`include/retrofs.h`, `src/fs/retrofs/fsmap.c`,
  `src/fs/retrofs/helpers.c`): the on-disk bitmap, the two levels of summaries over it, marking,
  searching and building.
- **Locks** (`include/rwlock.h`, `include/spinlock.h`): every atomic operation is one step; the
  results hold for any number of threads or CPUs in any interleaving, with spurious failures of the
  weak compare-and-swap. Liveness is proved over infinite fair runs.
- **The condition variable and the start of the application processors** (`include/cv.h`,
  `src/ap.c`, with the BSP's side in `src/acpi.c` and `src/taskswitch.c`).

Steps of different threads are interleaved one after the other: sequential consistency is an
assumption, and weaker memory models are not part of the project.

| file | contents |
|---|---|
| `Powers`, `Int32`, `Sets`, `Fairness` | powers of two and small arithmetic, the C type `int32_t`, sizes of sets, fair schedules |
| `Binary64`, `Rounding` | the number format, the hardware operations, round to nearest even |
| `Scalbn`, `ScaleBLaws`, `Frexp`, `Nearbyint` | the three functions and their laws |
| `Bitset`, `FreeSpace`, `Marking` | bits, the summaries, and what marks do to them |
| `MapScan`, `Search`, `LargeSearch`, `Finding` | scanning one map sector, what a search sees, what it answers and when that is right |
| `Device`, `BuildTally`, `BuildCounts`, `Volume` | the device with a record of its faults, building the summaries, and the mounted volume as a class |
| `RwLock`, `RwLiveness`, `SpinLock`, `SpinLiveness`, `IrqLock` | the locks |
| `CondVar`, `ApBoot` | the condition variable and the boot protocol |

## What the proofs turned up

Where a promise is false of the code, the code is modelled as it is, a concrete input shows the
failure, and the exact condition under which the promise holds is proved.

- `scalbn(scalbn(x,a),b) == scalbn(x,a+b)` does not follow from a normal intermediate result, since
  rounding up to the smallest normal number loses bits (`NormalIntermediateIsNotEnough`). It holds
  for all `b` exactly when the first scaling is exact (`ComposesIffExact`).
- `frexp(-0.0)` is `+0.0`, against the comment at include/maths.h:480; the round trip through
  `scalbn` fails for that one double and no other. `nearbyint(-0.0)` is `+0.0` as well.
- `nearbyint` goes wrong beyond the documented range, first for every odd integer from 2^52 to 2^53; the
  exact set of all doubles it changes there is stated, with the value each of them gets, and ends at 2^106.
- The scan for the free tail of a group (src/fs/retrofs/fsmap.c:412-433) skips a byte without looking
  at it. Its result is too large exactly when the last used byte is neither the first nor the last
  byte of the group and the byte before it is zero; then the search can hand out used sectors.
- A request of at most one group is only found inside a single group; a larger request that is a
  multiple of 4096 is only found when it ends with a group or with the volume.
- The summary builder (src/fs/retrofs/fsmap.c:752-800) advances its position twice for a word with a
  free bit, so later words are booked to later groups. The summaries are right exactly when no word
  spills out of its group; a volume with any wholly free full-size group is counted wrongly, and a
  full group can end up flagged as wholly free, so that its sectors are handed out. What marking and
  searching still guarantee from such a state is stated too.
- `start_sector + length_sectors` in `rfs_mark_extent` is taken modulo 2^64; the clamp keeps the
  extent inside the volume exactly when the sum does not wrap; if it does, the call marks the volume to
  its end and then fails on a volume of a whole number of groups and never returns on any other.
- On a big-endian machine the two kinds of spinlock acquire would not exclude each other, and a
  byte-wide release would leave a lock taken by compare-and-swap locked with no holder;
  include/kernel.h:16-18 rules it out.
- LIFO nesting of interrupt-masking locks is sufficient but not necessary: only the lock taken first
  must be released last.
- A ticket taken after a broadcast can lock in a waiter that the broadcast was meant for. In the
  boot sequence the BSP waits for `aps_online`, which is bumped before the ticket is taken, so there
  are runs in which no AP ever gets through. If some CPU is skipped by the start-up loop, so that
  fewer APs start than `limit - 1`, the BSP never gets past its gate.

## Model

| member | source | states |
|---|---|---|
| `Binary64.EncodeDecode` | include/maths.h:376-381 | Splitting a pattern into sign, exponent and fraction inverts assembling it. |
| `Binary64.DecodeEncode` | include/maths.h:376-381 | And the other way round, for every 64-bit pattern. |
| `Rounding.RoundUnitsNearest` | include/maths.h:398-435 | The rounding of a hardware product or sum is a nearest representable magnitude, the even one on a tie, with infinity at the grid point 2^1024. |
| `Rounding.NearestEvenUnique` | include/maths.h:398-435 | There is only one such magnitude, for every exact value. |
| `Rounding.OverflowThreshold` | include/maths.h:414-439 | Rounding overflows exactly from the midpoint between the largest finite double and 2^1024 on. |
| `Scalbn.ScaleBIsCorrectlyRounded` | include/maths.h:364-373 | `ScaleB(x, n)` is a correctly rounded x * 2^n with the sign of x, specials passed through, and no other double is. |
| `Scalbn.Scalbn` | include/maths.h:374-443 | For every double and every n whose exponent sum fits an int, the code returns that double bit for bit, on every path. |
| `Scalbn.ScaleSubnormal` | include/maths.h:393-419 | The branch that pre-scales by 2^54 rounds only once in the end. |
| `Scalbn.ScaleNormal` | include/maths.h:421-442 | The branch for normal numbers, including the gradual underflow by one multiplication. |
| `Scalbn.PrescaleOutcome` | include/maths.h:396-403 | A subnormal times 2^54 is exact and exposes its normalised significand and exponent; it never reaches infinity. |
| `Scalbn.MulByTwoPow` | include/maths.h:429-435 | A hardware multiplication by a power of two is a scaling with one rounding. |
| `Scalbn.UnderflowPath` | include/maths.h:423-428 | At -54 and below the correctly rounded result is the zero with the sign of x. |
| `Scalbn.OverflowPath` | include/maths.h:437-439 | At 2047 and above it is the infinity with the sign of x. |
| `Scalbn.PackPath` | include/maths.h:441-442 | In between it is exact and needs only a new exponent field. |
| `Scalbn.RescalePath` | include/maths.h:411-412 | Packing at any normal exponent and multiplying once is the correctly rounded result. |
| `ScaleBLaws.ScaleBMonotone` | include/maths.h:374-443 | Scaling preserves the order of all non-NaN doubles, across zeros, subnormals, normals and infinities. |
| `ScaleBLaws.ComposesIffExact` | include/maths.h:374-443 | Scaling by a and then by any b equals scaling by a + b exactly when the first scaling is exact. |
| `ScaleBLaws.NormalIntermediateIsNotEnough` | include/maths.h:374-443 | A double whose intermediate result is normal and for which composition fails. |
| `ScaleBLaws.ComposesInNormalRange` | include/maths.h:421-442 | Composition holds for every b when the exponent before rounding is in the normal range. |
| `ScaleBLaws.LossIsPermanent` | include/maths.h:423-439 | What an inexact scaling loses, scaling back never restores. |
| `Frexp.Frexp` | include/maths.h:467-502 | For every double, through the leading-zero count for subnormals: (+0.0, 0) for zeros, the double itself with exponent 0 for infinities and NaN, and otherwise a mantissa in [0.5, 1) whose product with 2^exp is x exactly. |
| `Frexp.DecompositionIsTheOnlyOne` | include/maths.h:459-465 | For every finite nonzero x a pair has its mantissa in [0.5, 1) and product x exactly if and only if it is the returned one. |
| `Frexp.RoundTripIffNotNegativeZero` | include/maths.h:478-480 | scaleB of the returned pair gives x back bit for bit, for every double, if and only if x is not -0.0. |
| `Nearbyint.Nearbyint` | include/maths.h:352-362 | For every double: up to 2^52 the rounded integer; beyond, where a finite double is an integer already, it is returned unchanged exactly when `StaysPut` says so of its exponent and fraction, and otherwise off by exactly one spacing, or half a spacing, to the side that `OffBy` says; infinities and NaN pass. |
| `Nearbyint.RoundedIntegerIsNearest` | include/maths.h:345-351 | The result is an integer, no integer is nearer to x, and a tie goes to the even one. |
| `Nearbyint.RoundedIntegerUnique` | include/maths.h:345-351 | Only one double is the rounded integer. |
| `Nearbyint.AddRounds` | include/maths.h:356-359 | Adding 2^52 rounds to a whole number of ones, ties to even. |
| `Nearbyint.SubIsExact` | include/maths.h:357-360 | Subtracting 2^52 again is exact. |
| `Nearbyint.BeyondRange` | include/maths.h:347-357 | From 2^52 on the double survives exactly when adding 2^52 stays in its binade or leads to an even multiple of the spacing, or the spacing is 2^53 and it is an even multiple and no power of two, or the spacing is larger. Any other moves by one spacing to where the sum is a multiple of four of them; with a spacing of 2^53, one spacing up, or half of one down from a power of two. |
| `Nearbyint.SignKeptIffNotNegativeZero` | include/maths.h:355-361 | The sign survives except for -0.0. |
| `Nearbyint.OddIffNonzero` | include/maths.h:355-361 | nearbyint(-x) is -nearbyint(x) bit for bit exactly for x other than zero. |
| `Nearbyint.IdempotentUnlessNegativeZero` | include/maths.h:352-362 | Rounding again changes no value, and no bit either unless the first result was a negative zero. |
| `ByteBits.OrPointwise` | include/retrofs.h:184 | `\|` on bytes works bit by bit. |
| `ByteBits.AndPointwise` | include/retrofs.h:186 | `&` on bytes works bit by bit. |
| `ByteBits.NotPointwise` | include/retrofs.h:186 | So does `~`. |
| `ByteBits.RangeMaskPointwise` | src/fs/retrofs/fsmap.c:283 | The mask of a span of bits, for every offset and length. |
| `ByteBits.ZeroTest` | src/fs/retrofs/fsmap.c:387 | A byte compares equal to 0x00 exactly when none of its bits is set. |
| `Bitset.BitsetSet` | include/retrofs.h:180-188 | The array becomes the bitset with that one bit written. |
| `Bitset.BitsetGet` | include/retrofs.h:196-200 | Returns the bit at the index. |
| `Bitset.PutBit` | include/retrofs.h:180-188 | A write is seen at its own index and nowhere else, not even in the same byte. |
| `Bitset.BitsetRefinesMap` | include/retrofs.h:180-200 | After any sequence of writes every index holds the last value written to it, as in a plain map. |
| `Bitset.BitsetBytesFit` | include/retrofs.h:207-209 | Every index below nbits is in bounds without a wasted byte, exactly when nbits + 7 does not wrap. |
| `Bitset.FillRange` | src/fs/retrofs/fsmap.c:278-295 | The masked byte loop writes exactly the bits [lo, hi) and counts exactly those that change. |
| `FreeSpace.GroupSize` | src/fs/retrofs/fsmap.c:339-344 | Groups tile the volume; only the last can be short. |
| `FreeSpace.GroupUpdated` | src/fs/retrofs/fsmap.c:260-265 | The writes for one group make all summaries equal those rebuilt from the changed map. |
| `FreeSpace.L1Speaks` | src/fs/retrofs/fsmap.c:200-205 | What the L2 refresh reads off the L1 entries is what the map says of the super-group. |
| `FreeSpace.OtherSupers` | src/fs/retrofs/fsmap.c:191-206 | Changing a group leaves the meaning of every other super-group alone. |
| `FreeSpace.FreeAfterFill` | src/fs/retrofs/fsmap.c:303-312 | Counting transitions is enough to keep a group's free count right. |
| `FreeSpace.FilledSectorCount` | src/fs/retrofs/fsmap.c:252-263 | The whole-group path, which does not read the map, leaves the right count, also in a short last group. |
| `FreeSpace.MarkedInGroup` | src/fs/retrofs/fsmap.c:243-250 | Bits of a map sector and sectors of the volume correspond. |
| `FreeSpace.DerivedUpdated` | src/fs/retrofs/fsmap.c:260-265 | The writes for one group keep the bitsets following the counters, right or wrong. |
| `FreeSpace.L1RightUpdated` | src/fs/retrofs/fsmap.c:260-263 | After those writes the entries of the group are right exactly when its new counter is, and those of any other group exactly when they were. |
| `FreeSpace.UpdateTracks` | src/fs/retrofs/fsmap.c:260-265 | So whatever was right stays right: bitsets that follow counters, the entries of each single group, all summaries. |
| `Marking.WholeMarked` | src/fs/retrofs/fsmap.c:252-265 | The whole-group path marks exactly the group and makes its entries right, whatever they were. |
| `Marking.PartMarked` | src/fs/retrofs/fsmap.c:266-318 | The partial path marks exactly its bits, moves the counter by the sectors that changed within the bounds of the group, and keeps right what was. |
| `Marking.MarkedOn` | src/fs/retrofs/fsmap.c:243-323 | Marks of consecutive pieces add up to one mark. |
| `Marking.FillSector` | src/fs/retrofs/fsmap.c:276-295 | The byte loop on a sector buffer and its count of transitions. |
| `FreeSpace.AdjustedGetsNoFurtherOff` | src/fs/retrofs/fsmap.c:303-312 | Adjusting a counter by the sectors that changed takes it no further from the true free count than it was; a right one stays right. |
| `FreeSpace.DerivedCoherentIffCounts` | src/fs/retrofs/fsmap.c:854-888 | Bitsets derived from the counters are right exactly when the counters are. |
| `FreeSpace.GroupUsage` | src/fs/retrofs/helpers.c:140-146 | Used and free sectors of a group add up to its size. |
| `MapScan.PrefixFree` | src/fs/retrofs/fsmap.c:384-409 | Returns the number of free bits at the start of a group. |
| `MapScan.SuffixFree` | src/fs/retrofs/fsmap.c:411-433 | Returns the tail up to the last used bit that the scan notices: one in the last byte, in the first, or above a byte that is not zero. |
| `MapScan.SeenTailIffHonest` | src/fs/retrofs/fsmap.c:411-433 | That is never less than the free tail, and equal to it exactly when the last used bit is noticed. |
| `MapScan.SkipZeroBytes` | src/fs/retrofs/fsmap.c:424-431 | Skips the longest run of zero bytes before the byte it stands in, which it does not look at. |
| `MapScan.DishonestTailExists` | src/fs/retrofs/fsmap.c:424-431 | A sector with eight used bits that the scan takes for wholly free. |
| `MapScan.FindRunFrom` | src/fs/retrofs/fsmap.c:453-479 | Returns the first run of the wanted length from the offset on, or none when there is none. |
| `Search.SmallFreeIff` | src/fs/retrofs/fsmap.c:519-537 | With any summaries, a small extent that is found is free exactly when the flag, if it was trusted, is right about the first `need` sectors. |
| `Search.SmallHitIff` | src/fs/retrofs/fsmap.c:502-538 | In sync, skipping by both levels of flags leads to exactly the groups with an in-group extent, and to the first one in each. |
| `Search.SmallSearchInSync` | src/fs/retrofs/fsmap.c:498-543 | So the first in-group extent of the volume is found, and nothing exactly when there is none. |
| `Search.ExtentIsInGroupOrAcross` | src/fs/retrofs/fsmap.c:498-543 | A free extent of at most one group lies inside a group, or the free tail of its group and the free head of the next are long enough together. |
| `Search.AcrossIsExtent` | src/fs/retrofs/fsmap.c:498-543 | And such a tail and head hold a free extent. |
| `Search.AllocationConserves` | src/fs/retrofs/fsmap.c:208-326 | Marking a free extent adds exactly its length to the usage; freeing it restores every bit. |
| `LargeSearch.FollowAddsUp` | src/fs/retrofs/fsmap.c:588-593 | The chain consists of groups taken for wholly free, stops at the first other one or when it is long enough, and its length is the distance it spans. |
| `LargeSearch.ReachIff` | src/fs/retrofs/fsmap.c:565-626 | Whatever the search sees, a group stops it exactly when its seen tail, some number of groups after it that are all taken for wholly free, and, unless `need` is a multiple of the group size, the head of the next one hold `need` sectors. |
| `LargeSearch.SightInSync` | src/fs/retrofs/fsmap.c:568-619 | In sync, all that the search takes from flags and scans is determined by the map. |
| `LargeSearch.PlacedFreeIff` | src/fs/retrofs/fsmap.c:585-624 | What is placed from a group is free exactly when its tail is as free as it looked and so is every group taken for wholly free, as far as the extent reaches. |
| `LargeSearch.FoundFreeIff` | src/fs/retrofs/fsmap.c:545-631 | The same in terms of any summaries: the flags that are trusted, and the honesty of a scanned tail. |
| `LargeSearch.FoundFreeIffHonest` | src/fs/retrofs/fsmap.c:545-631 | In sync, in terms of the map alone: free exactly when the tail of the group is honest. |
| `LargeSearch.ExtentIsReached` | src/fs/retrofs/fsmap.c:588-625 | A free extent is reached from the group where it begins, if the chain may end anywhere; a large one is reached by the chain of the code. |
| `LargeSearch.ExtentIffHonestReach` | src/fs/retrofs/fsmap.c:545-631 | A plain scan finds an extent exactly when some chain that notices every used sector and may end anywhere is long enough. |
| `LargeSearch.LargeIsFound` | src/fs/retrofs/fsmap.c:550-626 | If there is a large extent the search stops somewhere. |
| `LargeSearch.FoundIsLarge` | src/fs/retrofs/fsmap.c:550-626 | If it stops at a group with an honest tail there is a large extent. |
| `LargeSearch.AgreesIff` | src/fs/retrofs/fsmap.c:545-631 | The search agrees with a plain scan exactly when the first group that reaches `need`, if there is one, has an honest tail; if there is none it agrees, except that for a multiple of the group size no honest chain with a free end may be long enough. |
| `LargeSearch.HonestSearchAgrees` | src/fs/retrofs/fsmap.c:545-631 | With honest tails: no space exactly when there is no large extent, and full agreement unless `need` is a multiple of the group size. |
| `LargeSearch.UsedSectorsHandedOut` | src/fs/retrofs/fsmap.c:411-433 | On a volume of 8192 sectors with one unnoticed used byte the search for 8192 answers 0, over the used sectors 4080 to 4087. |
| `LargeSearch.LargeSearchMisses` | src/fs/retrofs/fsmap.c:600-601 | On a volume with exactly the 8192 sectors from 2048 on free, the search for 8192 stops nowhere. |
| `Finding.AnswerFreeIff` | src/fs/retrofs/fsmap.c:481-632 | With any summaries, an extent that is found lies in the volume and is free exactly when the flags and the tail it relies on are right. |
| `Finding.TrustedInSync` | src/fs/retrofs/fsmap.c:481-632 | In sync that is so exactly for a request of at most one group, or when the group where the search stops has an honest tail. |
| `Finding.LargeAnswerInSync` | src/fs/retrofs/fsmap.c:545-631 | In sync the answer to a large request is a function of the map alone. |
| `Finding.SmallAnswerInSync` | src/fs/retrofs/fsmap.c:498-543 | In sync the answer to a small request is the first in-group extent, or no space exactly when there is none. |
| `Finding.SmallAnswerPresented` | src/fs/retrofs/fsmap.c:498-543 | With any summaries, the answer to a small request is the first in-group extent of the map as the flags present it (flagged full, flagged free, or as it is), or no space exactly when that has none. |
| `Finding.SmallAgreesIff` | src/fs/retrofs/fsmap.c:498-543 | In sync a small search finds an extent whenever a plain scan does exactly when some group has a long enough run or no border has one across it. |
| `Finding.SmallAgreesWithRoom` | src/fs/retrofs/fsmap.c:498-543 | It finds one whenever 2 * need - 1 free sectors lie together, so always for a single sector. |
| `Finding.SmallSearchMisses` | src/fs/retrofs/fsmap.c:498-543 | A volume with two adjacent free sectors on which the search for two, with any summaries in sync, answers no space. |
| `Finding.BuildMarkFindHandsOutUsed` | src/fs/retrofs/fsmap.c:752-800 | A build, a mark of the first group and a search for one sector hand out a used sector. |
| `BuildTally.TallyRightIffNoSpill` | src/fs/retrofs/fsmap.c:752-800 | The counters the loop leaves are the true counts of all groups exactly when no word with a free sector is booked past its group. |
| `BuildTally.TallyFallsShort` | src/fs/retrofs/fsmap.c:752-800 | Free sectors are booked upward or lost, never downward. |
| `BuildTally.TallyIsCappedSum` | src/fs/retrofs/fsmap.c:752-800 | Spilled or not, every counter is the sum of the words booked to its group, capped once at the size of the group. |
| `BuildTally.BookedToDrifts` | src/fs/retrofs/fsmap.c:752-800 | A word is booked as many words further on as words before it in its chunk of 1024 have a free sector. |
| `BuildTally.BuiltIsCappedSum` | src/fs/retrofs/fsmap.c:716-852 | So every map determines the counter of every group, wherever its free sectors lie. |
| `BuildTally.BuiltRightIffNoSpill` | src/fs/retrofs/fsmap.c:716-852 | The same for the free counts of the map, chunked reads and cut-off last word included. |
| `BuildTally.LastWordsSpill` | src/fs/retrofs/fsmap.c:752-800 | Two neighbouring words at the end of a group that both have a free sector spoil the counters. |
| `BuildTally.WhollyFreeGroupSpills` | src/fs/retrofs/fsmap.c:752-800 | Every volume with a wholly free full-size group is miscounted. |
| `BuildTally.UsedGroupLooksFree` | src/fs/retrofs/fsmap.c:752-800 | A volume on which a wholly used group gets a full free count. |
| `BuildTally.BuiltNeverClaimsMore` | src/fs/retrofs/fsmap.c:716-852 | The counters together never claim more free sectors than there are, spilled or not. |
| `BuildCounts.AddWord` | src/fs/retrofs/fsmap.c:760-799 | The free bits of one word go to the group at the current position, which fills up to its size and no further; all other counters stay; the position moves by the word if it had any. |
| `BuildCounts.CountFullWords` | src/fs/retrofs/fsmap.c:751-800 | The loop over the full words of a chunk follows `Tally` and its drifting position. |
| `BuildCounts.CountTailWord` | src/fs/retrofs/fsmap.c:802-848 | So does the last word of fewer than 64 bits. |
| `BuildCounts.CountMap` | src/fs/retrofs/fsmap.c:716-852 | The whole counting loop leaves in every counter the capped sum of the words booked to its group, or a read failed. |
| `BuildCounts.DeriveL1` | src/fs/retrofs/fsmap.c:854-867 | The L1 bitsets say which counters are positive and which are full. |
| `BuildCounts.DeriveL2` | src/fs/retrofs/fsmap.c:869-888 | The L2 bitsets say which super-groups have any such group, and which have only such groups. |
| `BuildCounts.BuiltCoherentIffNoSpill` | src/fs/retrofs/fsmap.c:647-892 | All five summaries are right exactly when the counting did not spill. |
| `BuildCounts.BuildCaches` | src/fs/retrofs/fsmap.c:647-892 | The build as a whole: counters, bitsets, and when they are right; it fails exactly when a read of the device does, and then nothing is kept. |
| `Volumes.ClampHoldsIffNoWrap` | src/fs/retrofs/fsmap.c:226-233 | The clamp keeps the extent inside the volume exactly when the 64-bit sum does not wrap. |
| `Volumes.TakesNothingIffAtEnd` | src/fs/retrofs/fsmap.c:243-249 | A turn of the marking loop takes nothing exactly at the end of the volume. |
| `Volumes.PieceOf` | src/fs/retrofs/fsmap.c:244-252 | The piece of one turn lies in one group, ends with the group unless it is the last, and is the whole group exactly when the fast path is taken. |
| `Volumes.Volume.BuildLevelCaches` | src/fs/retrofs/fsmap.c:647-892 | The summaries after a build: capped sums as counters, bitsets that follow them, and all in sync with the map exactly when no word spills; exactly on a read error they are gone. |
| `Volumes.Volume.UpdateL2` | src/fs/retrofs/fsmap.c:191-206 | Rewrites exactly the two L2 bits of the super-group, from its L1 entries. |
| `Volumes.Volume.UpdateSummaries` | src/fs/retrofs/fsmap.c:260-265 | All summary writes that follow a change of one group. |
| `Volumes.Volume.MarkWholeGroup` | src/fs/retrofs/fsmap.c:252-265 | The exact new map and summaries of the fast path; it fails exactly with a fault, and changes nothing then. |
| `Volumes.Volume.MarkPartOfGroup` | src/fs/retrofs/fsmap.c:266-318 | The exact new map and summaries of the read-modify-write path, from any summaries; nothing is written when nothing changes; it fails exactly with a fault, and changes nothing then. |
| `Volumes.Volume.MarkPiece` | src/fs/retrofs/fsmap.c:243-323 | Either path marks exactly its part of the extent and keeps right what was. |
| `Volumes.Volume.MarkTurn` | src/fs/retrofs/fsmap.c:243-323 | One turn inside the volume carries the mark on, or a transfer fails, exactly then, and nothing changes. |
| `Volumes.Volume.TurnAtEnd` | src/fs/retrofs/fsmap.c:252-270 | At the end of the volume a turn changes nothing; its write is refused if the volume is a whole number of groups, and otherwise the loop goes on unless its read fails. |
| `Volumes.Volume.WriteMapSector` | src/fs/retrofs/helpers.c:23-41 | A write beyond the last map sector lies outside the volume and is refused; any other happens, or fails without effect, which is a fault of the device. |
| `Volumes.Volume.ReadMapSector` | src/fs/retrofs/helpers.c:4-21 | A map sector lies inside the volume: it is read, or the read is a fault of the device. |
| `Volumes.Volume.MarkLoop` | src/fs/retrofs/fsmap.c:240-325 | The loop marks the extent, or a prefix of it exactly when a transfer fails, or the rest of the volume if it runs past the end. |
| `Volumes.Volume.MarkExtent` | src/fs/retrofs/fsmap.c:208-326 | For all 64-bit arguments and any summaries: refuses exactly bad arguments; answers with a device error exactly when a transfer inside the volume failed during the call; marks exactly the clamped extent, or a prefix when a transfer fails; every group inside it ends with right entries, groups outside keep their counters, and what was right stays right. If start + length wraps and no transfer fails, it marks the volume to its end and then fails if that is a whole number of groups, and does not return otherwise. |
| `Volumes.Volume.MarkAll` | src/fs/retrofs/fsmap.c:208-326 | Any sequence of marks, device errors included: each is refused, ends or wraps as its own arguments say, some mark reports a device error exactly when a transfer failed, what was right stays right, all summaries if they were, and every sector is as the last mark that reached it says. |
| `Volumes.Volume.FindInGroup` | src/fs/retrofs/fsmap.c:513-538 | One group: the answer that flags and map determine, or an I/O error exactly when the read fails. |
| `Volumes.Volume.FindSmall` | src/fs/retrofs/fsmap.c:498-543 | The answer of the first group where the flags and the scan stop the search, or an I/O error exactly when a read fails. |
| `Volumes.Volume.TailOf` | src/fs/retrofs/fsmap.c:565-579 | The tail as the search sees it: the whole group if it is flagged as free, the scanned tail if it is not flagged as full, otherwise none. |
| `Volumes.Volume.HeadOf` | src/fs/retrofs/fsmap.c:602-619 | The head of the group that ends a chain, likewise, with the true free head where the map is read. |
| `Volumes.Volume.FollowChain` | src/fs/retrofs/fsmap.c:588-593 | Returns where the chain ends and how many sectors it has. |
| `Volumes.Volume.FindFromGroup` | src/fs/retrofs/fsmap.c:559-626 | Found exactly when the chain from this group reaches `need`, at the start of its seen tail. |
| `Volumes.Volume.FindInSuper` | src/fs/retrofs/fsmap.c:550-627 | The first hit in a super-group, or none exactly when there is none; a super-group that is not flagged has none. |
| `Volumes.Volume.FindLarge` | src/fs/retrofs/fsmap.c:545-631 | The first hit of the volume, no space exactly when there is none, and an I/O error exactly when a read fails. |
| `Volumes.Volume.FindFreeExtent` | src/fs/retrofs/fsmap.c:481-632 | An I/O error exactly when a read fails, and otherwise exactly the answer that map and summaries determine. With any summaries: free exactly when what it relies on is right. In sync: the first in-group extent or no space exactly when there is none; for a large request free exactly when the group where the search stops, a function of map and request, has an honest tail. |
| `Volumes.Volume.Allocate` | src/fs/retrofs/createdirectory.c:45-54 | From any built state: exactly the answer of the search, with its extent marked, unless a transfer failed or the volume has no map; what was right stays right; the extent was free exactly when the flags that the search relied on were right, and then the usage grows by its length. |
| `Volumes.Volume.UsedBytes` | src/fs/retrofs/helpers.c:134-156 | The bytes no counter calls free, with the clamp never acting; in sync, the exact number of used bytes; after a build, even one that spilled, never less. |
| `RwLock.StateTellsHolders` | include/rwlock.h:40-78 | In every run `state` is -1 exactly when one writer and no reader holds the lock, and otherwise it is the number of readers. |
| `RwLock.RunRefinesAbstractLock` | include/rwlock.h:40-78 | Every run is a run of an abstract readers-writer lock: each successful swap, decrement and store is a step it allows, stale loaded values included. |
| `RwLock.EventAllowed` | include/rwlock.h:42-47 | From any state of the invariant each step is allowed, whatever happened since the load. |
| `RwLock.StepIsEvent` | include/rwlock.h:40-78 | Each step changes the set of holders as its event says. |
| `RwLock.WriteUnlockErasesNobody` | include/rwlock.h:76-78 | When a writer stores 0 nobody else holds the lock, and afterwards nobody does. |
| `RwLock.StepKeepsInv` | include/rwlock.h:40-78 | Every step of every thread keeps the invariant. |
| `RwLock.CallsEndAsAsked` | include/rwlock.h:40-78 | A read lock call ends only by holding the lock for reading, a write lock call only by holding it for writing, a holder leaves only by its release, and nobody else moves. |
| `RwLock.SafeIffThreadsFit` | include/rwlock.h:25-27 | The invariant holds in every run of n threads exactly when n fits an int32_t. |
| `RwLock.Machine.ReadLockStep` | include/rwlock.h:40-51 | One atomic operation of the loop is the step of the model, in place. |
| `RwLock.Machine.ReadUnlock` | include/rwlock.h:56-58 | The decrement is the step of the model. |
| `RwLock.Machine.WriteLockStep` | include/rwlock.h:64-71 | One weak compare-and-swap from 0 to -1. |
| `RwLock.Machine.WriteUnlock` | include/rwlock.h:76-78 | The unconditional store. |
| `RwLock.Machine.Execute` | include/rwlock.h:40-78 | Any schedule of these operations in place is the run of the model, so the invariant holds of the word in memory. |
| `RwLiveness.EveryWaiterAcquires` | include/rwlock.h:40-78 | In every fair run from a reachable state in which nobody new enters and spurious failures end, every waiter gets the lock and in the end all are idle. |
| `RwLiveness.Drop` | include/rwlock.h:40-78 | A holder, or a waiter at a free lock, makes the measure over outstanding acquires and releases drop. |
| `RwLiveness.WriterCanStarve` | include/rwlock.h:60-71 | With readers that keep arriving there is a fair run in which a writer waits for ever. |
| `SpinLock.MixedUseIsSafe` | include/spinlock.h:53-81 | In every run that mixes all acquires and releases freely at most one thread holds the lock, the upper three bytes are zero and the value tells whether it is held. |
| `SpinLock.AttemptSucceedsIffFree` | include/spinlock.h:128-131 | There a test-and-set or a compare-and-swap succeeds exactly when nobody holds the lock. |
| `SpinLock.CallsEndAsAsked` | include/spinlock.h:53-81 | In either byte order a blocking call goes on or ends with the lock, a call that tries once ends at once, a holder leaves only by a release, and nobody else moves. |
| `SpinLock.TriesEndAtOnce` | include/spinlock.h:128-131 | In every run a call that tries once ends without the lock exactly when it is held, and an attempt that fails leaves the word as it was. |
| `SpinLiveness.EveryBlockedCallerAcquires` | include/spinlock.h:141-145 | In every fair run from a reachable state in which holders release and nobody new enters, every caller in a blocking acquire of either kind gets the lock, and in the end the lock is free. |
| `SpinLiveness.Drop` | include/spinlock.h:53-59 | A holder, or at a free lock any caller, makes the measure over outstanding acquires and releases drop, through a poll if need be. |
| `SpinLiveness.ClearLosesLock` | include/kernel.h:16-18 | On a big-endian machine a byte-wide release of a lock taken by compare-and-swap would leave it set with no holder. |
| `SpinLiveness.LostForEver` | include/kernel.h:16-18 | And no 32-bit attempt could take it again. |
| `SpinLock.SafeIffLittleOrUnmixed` | include/kernel.h:16-18 | Mutual exclusion holds in every run exactly on a little-endian machine, or without mixing the acquires, or with one thread. |
| `SpinLock.StepKeepsFirstByte` | include/spinlock.h:53-81 | Every step keeps the first byte equal to the number of holders. |
| `SpinLock.ValueZero` | include/spinlock.h:128-131 | In either byte order a 32-bit access reads 0 exactly when all bytes are zero. |
| `SpinLock.LockWord.TestAndSet` | include/spinlock.h:53-59 | Sets the first byte only and returns whether it was set. |
| `SpinLock.LockWord.Clear` | include/spinlock.h:66-68 | Clears the first byte only. |
| `SpinLock.LockWord.TryLock` | include/spinlock.h:128-131 | Succeeds exactly when the 32-bit value is 0 and then stores 1. |
| `SpinLock.LockWord.AttemptStep` | include/spinlock.h:53-81 | An attempt of either kind on the bytes in memory is the step of the model: with the lock, still in the call if it blocks, or out of it if it tries once. |
| `SpinLock.LockWord.ReleaseStep` | include/spinlock.h:171-172 | So is a release of either kind. |
| `IrqLock.NeverStuckIffFirstLast` | include/spinlock.h:156-174 | For any order in which a program may release its locks: no run lets a handler spin for a lock of a context it interrupted on its CPU, including the windows before the mask and before the flags are restored, exactly when the lock taken first is never released while another is held. |
| `IrqLock.LifoNeverStuck` | include/spinlock.h:156-174 | LIFO nesting is such an order. |
| `IrqLock.HolderIsRunning` | include/spinlock.h:156-174 | In every such run a lock is set exactly when one context holds it, once; that context is running with interrupts off, and no interrupted context holds any lock. |
| `IrqLock.FlagRestoredAfterNest` | include/spinlock.h:90-106 | From the first save of a context on, over a nest of locks of any depth: it has not masked yet or interrupts are off, and when it is outside again the flag is what it was at that save. |
| `IrqLock.NestRuns` | include/spinlock.h:156-174 | Once interrupts are off in a nest they stay off until it is over. |
| `IrqLock.CpuStepOk` | include/spinlock.h:156-174 | Every step keeps: interrupted contexts hold nothing, held locks mean interrupts off, and inner saved flags are off. |
| `IrqLock.SessionStep` | include/spinlock.h:156-174 | Every step of a CPU keeps a nest before its mask, under it, or ends it with the original flag. |
| `IrqLock.FirstReleasedEarlySticks` | include/spinlock.h:171-174 | An order that lets a program release the first of any number of locks early has a run into a deadlock with a handler. |
| `IrqLock.Machine.SaveFlags` | include/spinlock.h:157 | The interrupt flag as it is goes into the saved flags before the mask; all invariants are kept. |
| `IrqLock.Machine.MaskInterrupts` | include/spinlock.h:158 | Interrupts are off on this CPU afterwards, and the saved flags stay. |
| `IrqLock.Machine.TryOnce` | include/spinlock.h:141-145 | One turn of the spin loop takes the lock exactly when it is free, recording the saved flags with it, and changes nothing otherwise. |
| `IrqLock.Machine.StoreZero` | include/spinlock.h:172 | The lock taken last is free again, and the flags saved with it are the ones to restore. |
| `IrqLock.Machine.RestoreFlags` | include/spinlock.h:173 | The interrupt flag is what was saved with the lock; all invariants are kept. |
| `CondVar.LeavesIff` | include/cv.h:19-26 | A waiting thread holds its place since the last broadcast before it as ticket, and can leave exactly when a broadcast followed its arrival and fewer threads than its ticket have arrived since the latest broadcast. |
| `CondVar.CounterFits` | include/cv.h:10-12 | The counter is the number of arrivals since the latest broadcast, which never exceeds the number of threads. |
| `CondVar.BroadcastReleases` | include/cv.h:19-31 | After a broadcast, a waiter with fewer later arrivals than its ticket leaves in every fair run. |
| `CondVar.BroadcastReleasesAll` | include/cv.h:19-31 | With a fixed set of waiters one broadcast releases all of them in every fair run. |
| `CondVar.LostWakeup` | include/cv.h:19-31 | A thread that arrives right after a broadcast locks in the one the broadcast was for, however often they poll. |
| `CondVar.SimpleCv.TakeTicket` | include/cv.h:20 | The fetch-and-add hands out the new counter as ticket. |
| `CondVar.SimpleCv.PollOnce` | include/cv.h:23-25 | One turn of the loop ends it exactly when the model's thread leaves. |
| `ApBoot.TicketsWithinOnline` | src/ap.c:19-23 | In every run tickets never exceed `aps_online`, which is the number of APs that counted themselves, and no AP is in its process loop before the broadcast. |
| `ApBoot.GateOpensIffOnline` | src/acpi.c:355-357 | A step of the BSP leaves the gate exactly when `quota` APs have counted themselves. |
| `ApBoot.PastGateMeansOnline` | src/acpi.c:355-357 | In every run the BSP is past its gate, and so broadcasts, only after `quota` APs are online. |
| `ApBoot.LateForEver` | src/ap.c:19-33 | An AP without a ticket at the broadcast, or overtaken after it, never gets through. |
| `ApBoot.AllThroughIffAllTicketed` | src/ap.c:25-33 | In every fair run all APs get through exactly when all had their tickets at the broadcast. |
| `ApBoot.OnlineIsNotRegistered` | src/acpi.c:355-357 | Whenever the gate can open there is a run in which all APs are online and none ever gets through. |
| `ApBoot.BroadcastsIffQuotaMet` | src/acpi.c:341-357 | In every fair run the BSP reaches its broadcast exactly when it waits for no more APs than were started. |
| `ApBoot.Machine.ProcStep` | src/ap.c:19-33 | In place: an AP bumps `aps_online` first, takes its ticket in a later step, and then polls. |
| `ApBoot.Machine.BootStep` | src/acpi.c:355-357 | In place: the BSP stays at its gate exactly while `aps_online` is below the quota, then broadcasts once, which resets the counter, and never otherwise. |
| `ApBoot.Machine.Execute` | src/ap.c:19-33 | Any schedule in place is the run of the model. |

## Left out

- Volumes.Volume.MarkExtent: volumes of more than 2^64 - 4096 sectors, where the end of a group does not fit 64 bits, and maps that do not lie at the end of the volume, where `rfs_format` puts them, are not described.
- Scalbn.Scalbn: requires the exponent sum to fit an int, since the C addition is undefined otherwise.
- SpinLock.LockWord.TryLock: each atomic operation of the classes is a method body of several assignments; that nothing comes between them is the meaning of a step, not something proved.
- NaN payloads through hardware operations, floating-point exceptions and other rounding modes.
- Memory orders weaker than sequential consistency, and fairness of the hardware.
- Only the interrupt flag of RFLAGS; non-maskable interrupts; code that changes the flag while it holds a lock.
- A thread that takes a readers-writer lock twice, or releases what it does not hold.
- The device: a write of a map sector either happens or fails without effect; a read of several sectors is one event; the map has one sector per group and ends the volume, as `format.c` lays it out.
- The single memory block behind the summaries, its alignment and the running out of memory; the 16-bit width of the counters, which never exceed 4096; the shift of a 64-bit word by 64, undefined in C, whose result is not used.
- Null pointers and the checks against them; the error codes other than invalid argument, no space and I/O error.
- Directories, files, formatting and mounting of RetroFS, and its block cache.
- The buddy allocator, the slab allocator, the scheduler, drivers, network stack, other file systems and the BASIC interpreter.
- Transcendental functions of `maths.h`.
