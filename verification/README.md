# GEL RAM: verified model

GEL RAM is a dependency-free core over fixed 1024-bit records ("ORBs"). Most of its algorithms
come in a fast form that must equal a simple one; the repository checks this on finite samples.
This project models those algorithms in Dafny and proves the equalities for all inputs, all
messages and all schedules.

Machine words are natural numbers below 2^64; their bitwise operations are defined digit by digit
(`Words.dfy`), and wrap-around, truncation and shifts are written out. Each word array has one
abstract view, its bit positions (`Orbs.dfy`), against which the word-level code is proved once.

| file | what it models |
|---|---|
| `Words`, `Mixing`, `Counting`, `BitStreams`, `LittleEndian`, `Orbs`, `Kernel` | words, mixing functions, cardinalities, bit streams, byte images, the ORB carrier and its kernels |
| `Ranking` | bounded insertion, `top_k`, the early-exit scan and the frozen v0.2.0 baseline |
| `ParallelTop1` | the fork/join Top-1 as a state machine over spawns, refusals, panics, joins and the serial retry |
| `Structural` | the position codec, XOR residuals, encodings and the prototype search |
| `Crc`, `CheckValue` | CRC-64 (Annex B of ECMA-182) as polynomial division over GF(2); published check values |
| `Galois`, `BitVectors`, `Order` | the ring of polynomials over GF(2), concrete products and remainders computed inside a proof, and the exact order of x modulo the generator |
| `Store` | the `.gel` header, v1 and v2 parsing, streaming verification, loading and writing |
| `Straddle`, `Corruption`, `Legacy`, `Parity`, `TwoFlips` | exactly which changes of a header or a file the checks accept: windows of eight bytes, odd numbers of flips, two flips |
| `Publish` | temp-file-then-rename publication and the generation guard, step by step with faults and crashes |
| `Views` | the reversible geometries of one ORB |
| `PhaseQuad`, `BankScan` | grids, views, difference histograms, the reader and its multi-threaded bank scan |
| `CodeSpans` | the backtracking code-span scanner of `xtask` |
| `Catalog`, `SourceParts`, `LeadParts` | the bytes of the source catalog and its loading, title lookup, heading classification and the multipart lead lookup |
| `PointerChase` | the single-cycle table of `gel-physics` |

A state machine is a `Step` datatype with `Enabled` and `Apply`; `After` runs a schedule, so a
statement about `After(..) == Some(s)` is a statement about every reachable state. A crash is a
schedule that stops early.

## Where a promise needs a condition

- `write_if_newer` promises to reject stale generations (crates/gel-store/src/lib.rs:206-207), but
  it looks for a predecessor with `Path::exists`, which answers false on an I/O error. A Unix build
  then asks for the mode of the same path and stops if that fails too (lines 500-504). So the
  promise fails exactly when the first probe denies the file and the second one, where there is
  one, answers: `Publish.BypassIsExact`, for every call the guard must refuse, and
  `Publish.PublishesExactly` for every call. `Publish.MisreportBypassesGuard` gives the failing
  schedule; `Publish.GuardedReplacement` and `Publish.GenerationsOnlyGrow` hold for every schedule
  without the step `MisreportAbsent`.
- Header and payload checksums are meant to catch accidental corruption (docs/FORMAT.md:31-35), and
  a change inside eight consecutive bytes of a payload is always caught. Not so for `Header::decode`
  alone: the stored checksum is little-endian and lies right behind the payload checksum, and a
  window across the two may change both consistently. `Corruption.HeaderChangeVerdict` gives the
  exact condition, four pairs of masks; `Corruption.EscapeIsAccepted` applies one to every accepted
  header. The file as a whole is still rejected, because the payload checksum it then names is
  wrong: `Corruption.WindowChangeVerdict`. One change inside eight bytes can survive in a file: bytes
  7 and 8 may turn it into a v1 file. Some header allows that for a payload exactly when the v1
  digest of the payload equals its CRC: `Legacy.TurnsLegacy`, `Legacy.OnlyThenLegacy`.
- Up to three flipped bits are always noticed in a message of at most 8589606914 bits, the order of x
  modulo the generator, and in no longer one: `TwoFlips.FewFlipsExactly`. Two flips cancel exactly
  when that number divides their distance. A file within the default limits is short enough
  (`TwoFlips.DefaultFilesNoticeFewFlips`); `OpenLimits::UNLIMITED` admits files that are not.
- `Top1Execution.effective_workers` equals the request exactly when the parallel result was used,
  except for one worker on a nonempty bank and none on an empty one:
  `ParallelTop1.EffectiveIsRequested`, with both exceptions in `ParallelTop1.SerialLooksEffective`.
- An error from a publication does not mean that the target is unchanged. The rename decides that,
  and a failed directory sync after it is reported as an ordinary I/O error:
  `Publish.ResultIsTruthful`, reachable by `Publish.ErrorAfterRename`. The documentation makes the
  sync part of success and promises nothing about an error (crates/gel-store/src/lib.rs:199-201).

## Model

| member | source | states |
|---|---|---|
| `Orbs.HammingDistance` | crates/gel-orb/src/lib.rs:87-98 | the word-wise popcount of the XOR is the number of bit positions that differ, and it and the agreement count add up to 1024 |
| `Orbs.ReadBit` | crates/gel-orb/src/lib.rs:64-69 | a bit read fails exactly outside 0..1023 and otherwise returns that position of the abstract bit view |
| `Orbs.SetBit` | crates/gel-orb/src/lib.rs:72-84 | fails exactly outside 0..1023; otherwise a write changes the addressed position and no other |
| `Orbs.WriteBit` | crates/gel-reader/src/lib.rs:104-111 | the unchecked write of the view loops changes the addressed position and no other |
| `Orbs.SameOrb` | crates/gel-orb/src/lib.rs:9-11 | two ORBs that agree on all 1024 positions are equal, so the bit view determines the words |
| `LittleEndian.ToLeBytes` | crates/gel-orb/src/lib.rs:55-61 | the byte image is the concatenation of the eight-byte little-endian words |
| `LittleEndian.FromLeBytes` | crates/gel-orb/src/lib.rs:39-53 | exactly 128 bytes are accepted, and then the words are those of the image |
| `LittleEndian.WordsOfImage` | crates/gel-orb/src/lib.rs:39-61 | reading the image of any words gives the words back |
| `LittleEndian.ImageOfWords` | crates/gel-orb/src/lib.rs:39-61 | re-encoding what was read from any 8n bytes gives those bytes back |
| `Kernel.ContingencyOf` | crates/gel-kernel/src/lib.rs:72-84 | the four counters are the numbers of positions with each of the four bit pairs |
| `Kernel.TableAccounts` | crates/gel-kernel/src/lib.rs:44-69 | the four counts total 1024; their sums are the score, the Hamming distance and the two marginals |
| `Kernel.SubspaceXnor8` | crates/gel-kernel/src/lib.rs:89-99 | slot g is the number of agreeing positions among its own 128 |
| `Kernel.LocalViewsPartition` | crates/gel-kernel/src/lib.rs:194-201 | the eight local counts add up to the score |
| `Ranking.ScoreXnor` | crates/gel-kernel/src/lib.rs:102-122 | the four grouped popcounts give the per-bit agreement count |
| `Ranking.ProgressiveXnorBound` | crates/gel-kernel/src/lib.rs:128-146 | fails exactly outside 1..16 words; the pair it returns brackets the true score |
| `Ranking.RankedIsTheSortedBank` | crates/gel-reader/src/lib.rs:469-478 | the reference list is strictly sorted by score descending, then index ascending, and its members are exactly the scored bank |
| `Ranking.SortedIsUnique` | crates/gel-reader/src/lib.rs:468-478 | a sorted list is determined by its members, so tie order leaves no freedom |
| `Ranking.InsertTopK` | crates/gel-reader/src/lib.rs:480-504 | if the list holds the best k of what was seen, then after the call it holds the best k including the candidate, early return included |
| `Ranking.InsertAll` | crates/gel-reader/src/lib.rs:480-504 | fed candidates with distinct indices in any order, the list is the best k of all of them |
| `Ranking.RankAllIsSorted` | crates/gel-reader/src/lib.rs:480-504 | ranking a feed of distinct indices sorts it and keeps exactly its members |
| `Ranking.ArrivalOrderIsIrrelevant` | crates/gel-reader/src/lib.rs:994-1002 | two feeds with the same members rank the same, whatever their order |
| `Ranking.TopK` | crates/gel-reader/src/lib.rs:469-478 | `top_k` returns the first min(k, n) entries of the reference list |
| `Ranking.TopIsOrdered` | crates/gel-reader/src/lib.rs:468-478 | these entries are ordered by score, then index, and every score counts the agreeing bits |
| `Ranking.TopIsBest` | crates/gel-reader/src/lib.rs:468-478 | and no ORB left out beats one of them |
| `Ranking.PrefixBound` | crates/gel-reader/src/lib.rs:536-548 | the score lies between the agreements seen so far and that number plus all unseen positions |
| `Ranking.StagedScore` | crates/gel-reader/src/lib.rs:536-555 | the early-exit cascade stops at 256 or 512 bits exactly when the bound there is below the threshold; it never stops on a score that reaches it |
| `Ranking.PrunedIsNotRanked` | crates/gel-reader/src/lib.rs:513-516 | leaving out a pruned candidate does not change the best k: strict `upper < kth score` loses nothing |
| `Ranking.TopKProgressive` | crates/gel-reader/src/lib.rs:517-560 | the early-exit scan returns the first min(k, n) entries of the reference list, with exactly the expected stage counters; for k > 0 they add up to n |
| `Ranking.StagesPartition` | crates/gel-reader/src/lib.rs:507-512 | the two rejection counts and the full-score count of any bank prefix add up to its length |
| `Ranking.ExpectedStatsCount` | crates/gel-reader/src/lib.rs:507-548 | the first counter is the number of ORBs whose agreement still possible after 256 bits is below the k-th best score before them, the second of those for which only the one after 512 bits is, the third of all others |
| `Ranking.FrozenInsertTopK` | crates/gel-reader/examples/support/v020_topk.rs:19-34 | the v0.2.0 insertion meets the same specification as the current one |
| `Ranking.FrozenTopKProgressive` | crates/gel-reader/examples/support/v020_topk.rs:46-83 | the v0.2.0 scan, which scores prefixes twice, meets the same specification, counters included |
| `Ranking.FrozenTopK` | crates/gel-reader/examples/support/v020_topk.rs:8-17 | the v0.2.0 full scan meets the same specification as the current one |
| `Ranking.RunMode` | crates/gel-reader/examples/topk_compare.rs:42-75 | each of the four modes returns the same list, and each early-exit mode the same counters |
| `Ranking.CompareModes` | crates/gel-reader/examples/topk_compare.rs:115-135 | from whatever mode the four runs start, every output equals the expected list of the frozen `top_k`, and both early-exit modes run and give equal counters |
| `ParallelTop1.Top1` | crates/gel-reader/src/lib.rs:277-286 | the serial scan returns the highest score, lowest index on ties, and nothing exactly on an empty bank |
| `ParallelTop1.BestIsUnique` | crates/gel-reader/src/lib.rs:301-306 | only one answer is best for a range |
| `ParallelTop1.BestHeadsRanking` | crates/gel-reader/src/lib.rs:277-286 | Top-1 is the head of the reference ranking |
| `ParallelTop1.ChunksCover` | crates/gel-reader/src/lib.rs:288-296 | the chunks tile the bank in order, their lengths never grow and differ by at most one, and none is empty when there are at least as many ORBs as threads |
| `ParallelTop1.ScanChunkIsBest` | crates/gel-reader/src/lib.rs:348-351 | scanning a slice and shifting the index gives the best of that index range |
| `ParallelTop1.EveryScheduleIsExact` | crates/gel-reader/src/lib.rs:385-466 | under every interleaving, spawn refusal and set of worker panics the finished call returns the serial answer; the parallel result is used exactly when at least two threads were requested, at most half as many as ORBs, at most 256 and at most four for each processor reported, and no start was refused and no worker panicked; the report names the budget, the workers used and started, and exactly one reason otherwise, a refused start before a panic |
| `ParallelTop1.FaultsAreRecorded` | crates/gel-reader/src/lib.rs:419-453 | in every reachable state the refusal flag and the worker states say exactly which faults the schedule held |
| `ParallelTop1.EveryOutcomeOccurs` | crates/gel-reader/src/lib.rs:419-465 | every admitted call can end with the parallel result, after the refusal of any start, and after the panic of any child |
| `ParallelTop1.CanFinish` | crates/gel-reader/src/lib.rs:419-465 | from every reachable state the call can finish without another fault |
| `ParallelTop1.EffectiveIsRequested` | crates/gel-reader/src/lib.rs:331-340 | "the reported worker count equals the request exactly when the parallel result was used" holds if and only if the call is neither one worker on a nonempty bank nor none on an empty one |
| `ParallelTop1.SerialLooksEffective` | crates/gel-reader/src/lib.rs:398-417 | in both exceptions the call ends in its first step, nothing ran in parallel, and the count equals the request |
| `ParallelTop1.RetryWaitsForChildren` | crates/gel-reader/src/lib.rs:438-464 | when the decision or the serial retry starts, every started child has ended |
| `ParallelTop1.EveryCallFinishes` | crates/gel-reader/src/lib.rs:419-465 | no reachable unfinished call is stuck, and every step decreases a bound: no deadlock, no endless run |
| `ParallelTop1.ScheduleKeepsInv` | crates/gel-reader/src/lib.rs:419-465 | the fork/join invariant holds in every reachable state |
| `Structural.PackPositions` | crates/gel-structural/src/lib.rs:244-261 | the accumulator loop produces the packed form of any list of ten-bit positions |
| `Structural.UnpackPositions` | crates/gel-structural/src/lib.rs:263-298 | the accumulator loop decides exactly the declarative decoding, for every count and byte string; the truncation and out-of-range errors never occur after the length check |
| `Structural.UnpackPacked` | crates/gel-structural/src/lib.rs:244-312 | unpacking a packed ascending list gives the list back |
| `Structural.PackUnpacked` | crates/gel-structural/src/lib.rs:263-312 | whatever unpacks is an ascending list of the stated length whose packed form is the input: one byte string per list |
| `Structural.UnpackIsExact` | crates/gel-structural/src/lib.rs:263-312 | for every count and byte string: exactly the images of ascending lists of that length unpack; a wrong count, a wrong length, bits of no ascending list and nonzero padding are reported in this order |
| `Structural.EmitWord` | crates/gel-structural/src/lib.rs:47-52 | the clear-lowest-bit loop terminates and emits exactly the set positions of one word, in increasing order |
| `Structural.FromExactXor` | crates/gel-structural/src/lib.rs:37-65 | the residual is the one with the differing positions, sparse exactly when its bytes are fewer than the dense form's |
| `Structural.DiffListIsDiffer` | crates/gel-structural/src/lib.rs:46-53 | the emitted list is ascending, holds exactly the differing positions, and its length is the Hamming distance |
| `Structural.ApplyResidual` | crates/gel-structural/src/lib.rs:90-117 | applying flips exactly the listed bits (sparse) or XORs the words (dense), or fails as unpacking fails |
| `Structural.ResidualIsExact` | crates/gel-structural/src/lib.rs:37-117 | applying the residual to the predictor gives the target, and its popcount is the Hamming distance |
| `Structural.PopCountIsDistance` | crates/gel-structural/src/lib.rs:67-117 | any stored residual has a popcount exactly when it applies, with the same error otherwise, and the popcount is the distance between predictor and result |
| `Structural.SparseIsCanonical` | crates/gel-structural/src/lib.rs:90-117 | two accepted sparse residuals with the same effect on a predictor are identical |
| `Structural.EncodingIsExact` | crates/gel-structural/src/lib.rs:131-186 | encoding fails exactly at the depth limit; otherwise it decodes to the target, is a delta exactly up to the break-even distance of its parent kind, and is never longer than a literal |
| `Structural.DecodeIsExact` | crates/gel-structural/src/lib.rs:161-177 | the encodings that decode are the literals and the deltas of depth 1 or 2 with a predictor and a well-formed residual, whose bits are flipped; a bad depth is reported before a missing predictor |
| `Structural.CloserIsShorter` | crates/gel-structural/src/lib.rs:179-186 | a delta is shorter than a literal exactly up to 94 flips, and up to there length orders candidates exactly as distance does |
| `Structural.StoredLength` | crates/gel-structural/src/lib.rs:179-186 | the length of every encoding by its parts |
| `Structural.EncodeBestPrototype` | crates/gel-structural/src/lib.rs:225-242 | returns the delta against the nearest prototype, lowest index on ties, exactly when its distance is at most 94, else the literal without an index; the result has minimum length over all candidates and decodes to the target |
| `Structural.NearestIsUnique` | crates/gel-structural/src/lib.rs:225-242 | only one prototype is the nearest one of lowest index |
| `Structural.ChoiceIsMinimal` | crates/gel-structural/src/lib.rs:225-242 | the nearest-prototype rule gives the shortest encoding |
| `BitStreams.UnstreamStream` | crates/gel-structural/src/lib.rs:244-298 | cutting a bit stream of fixed-width numbers gives the numbers back |
| `BitStreams.StreamUnstream` | crates/gel-structural/src/lib.rs:263-298 | every bit string of whole numbers is the stream of the numbers cut from it |
| `Crc.DivisionIdentity` | crates/gel-core/src/lib.rs:76-105 | the remainder and the quotient divide: message = quotient * generator + remainder over GF(2), with degree below 64 |
| `Crc.RemainderIsUnique` | crates/gel-core/src/lib.rs:76-105 | no other polynomial of degree below 64 is a remainder |
| `Crc.EightSteps` | crates/gel-core/src/lib.rs:96-102 | the eight-turn inner loop multiplies the register by x^8 modulo the generator |
| `Crc.Crc64Ecma.Update` | crates/gel-core/src/lib.rs:92-105 | from any state and for a message of any length the register becomes state * x^(8n) + message * x^64 modulo the generator |
| `Crc.Crc64` | crates/gel-core/src/lib.rs:76-80 | the one-shot checksum is message * x^64 modulo the generator |
| `Crc.SplitFeeding` | crates/gel-core/src/lib.rs:92-105 | feeding a message in two parts, hence in any split, gives the one-shot register |
| `Crc.CrcIsLinear` | crates/gel-core/src/lib.rs:76-105 | for equal-length messages the checksum of the XOR is the XOR of the checksums |
| `Crc.BurstDetected` | crates/gel-core/src/lib.rs:92-105 | messages of any length that differ only inside one window of 64 consecutive bits never share a checksum |
| `Crc.WindowDetected` | crates/gel-core/src/lib.rs:92-105 | the same for a window of at most eight bytes with any bytes before and after |
| `CheckValue.CanonicalCheckValue` | crates/gel-core/src/lib.rs:184-186 | the checksum of the nine bytes "123456789" is 0x6C40DF5F0B497347, as docs/FORMAT.md:28 states |
| `CheckValue.LegacyCheckValue` | crates/gel-core/src/lib.rs:115-151 | the v1 digest of the letter a is 0x25AD9D1B70DE62D1, its hash before the finalizer being the published FNV-1a value |
| `CheckValue.FirstDraw` | crates/gel-core/src/lib.rs:154-160 | the generator's first draw from seed 0 is the published 0xE220A8397B1DCDAF |
| `Order.OrderOfX` | crates/gel-core/src/lib.rs:92-105 | x^m is 1 modulo the generator if and only if 8589606914 divides m |
| `TwoFlips.TwoBitsVerdict` | crates/gel-core/src/lib.rs:92-105 | messages of any length that differ in exactly two bits share a checksum if and only if 8589606914 divides the distance of the bits |
| `TwoFlips.FewFlipsExactly` | crates/gel-core/src/lib.rs:92-105 | the lengths at which any one, two or three flipped bits change the checksum are exactly those of at most 8589606914 bits |
| `Store.EncodeHeader` | crates/gel-store/src/lib.rs:79-99 | filling the buffer field by field gives the canonical 64-byte image |
| `Store.HeaderRoundTrip` | crates/gel-store/src/lib.rs:79-142 | a canonical header survives encoding and decoding |
| `Store.DecodedIsCanonical` | crates/gel-store/src/lib.rs:105-142 | whatever decodes is canonical, and its encoding is the input byte for byte |
| `Store.HeaderVerdict` | crates/gel-store/src/lib.rs:105-142 | the verdict on any 64 bytes as a v2 header, field by field on the bytes, with the error of the first check that fails |
| `Store.LegacyHeaderIsExact` | crates/gel-store/src/lib.rs:383-405 | the 64-byte headers accepted as v1 and the two numbers read from them, on the bytes |
| `Store.Checksum64.Update` | crates/gel-core/src/lib.rs:141-147 | the v1 digest state after an update is the fold over the bytes, length counted modulo 2^64 |
| `Store.OpenValidated` | crates/gel-store/src/lib.rs:358-428 | a file that passes the checks before the payload has exactly the length its record count demands |
| `Store.OpenReason` | crates/gel-store/src/lib.rs:354-381 | the checks before the payload in their documented order: size budget, magic, header, record budget, exact length |
| `Store.SizeReasons` | crates/gel-store/src/lib.rs:407-428 | the record budget, the two overflow checks and the length, with their errors |
| `Store.PayloadCheck.Update` | crates/gel-store/src/lib.rs:310-318 | one more record extends both running digests |
| `Store.PayloadCheck.Conclude` | crates/gel-store/src/lib.rs:323-351 | the final comparison is that of the digests of the whole payload |
| `Store.VerifyFile` | crates/gel-store/src/lib.rs:267-279 | streaming verification through one buffer computes the verdict of the whole file |
| `Store.Load` | crates/gel-store/src/lib.rs:232-256 | loading computes the declared result for every byte string, limit and capacity |
| `Store.VerifyAgreesWithLoad` | crates/gel-store/src/lib.rs:259-279 | loading and verifying give the same error or the same header and format; allocation failure is the only difference and happens exactly when the checked count exceeds the capacity |
| `Store.FromOrbs` | crates/gel-store/src/lib.rs:173-181 | a new store has the canonical header with the checksum of its payload, and it is valid whenever its file size fits 64 bits |
| `Store.LoadedIsCanonical` | crates/gel-store/src/lib.rs:232-256 | every file loaded as v2 equals its header encoding followed by its ORBs |
| `Store.WrittenReopens` | crates/gel-store/src/lib.rs:202-256 | every valid store written and reopened within limits gives the same header, generation and ORBs |
| `Store.LegacyUpgrades` | crates/gel-store/src/lib.rs:323-351 | a loaded v1 file has generation 0 and survives being written as v2 and reopened |
| `Store.LegacyLoadsExactly` | crates/gel-store/src/lib.rs:383-405 | the files loaded as v1, byte for byte: magic, version, geometry, zero bytes, exact length, limits and v1 digest; the header they get has generation 0 and the CRC of the payload |
| `Store.FormatIsMagic` | crates/gel-store/src/lib.rs:364-375 | the first eight bytes of an accepted file decide its format |
| `Corruption.HeaderChangeRejected` | crates/gel-store/src/lib.rs:105-142 | any change of a valid v2 header inside eight bytes is rejected by `decode` unless the window starts at byte 44 or 46 and reaches across byte 48 |
| `Corruption.SlotChangeVerdict` | crates/gel-store/src/lib.rs:105-142 | any change of the payload checksum and the stored header checksum: `decode` accepts it exactly when the second change is the shifted first one modulo the generator |
| `Straddle.FitsExactly` | crates/gel-store/src/lib.rs:105-142 | what fits in eight bytes across the two: nothing with 1, 3, 5, 6 or 7 field bytes, three pairs with 2, one pair with 4 |
| `Corruption.HeaderChangeVerdict` | crates/gel-store/src/lib.rs:105-142 | a change inside eight bytes anywhere in a valid v2 header: `decode` accepts it if and only if it is one of these four pairs |
| `Corruption.EscapeIsAccepted` | crates/gel-store/src/lib.rs:105-142 | every accepted header has an accepted one that differs from it in bytes 46 to 53 only |
| `Corruption.PayloadBurstRejected` | crates/gel-store/src/lib.rs:323-328 | a payload change inside any 64-bit window of a valid v2 file is rejected as corrupt |
| `Corruption.WindowChangeVerdict` | crates/gel-store/src/lib.rs:358-405 | a change inside eight bytes anywhere in a valid v2 file: it is accepted under some limits if and only if it makes the file a v1 file whose digest is the old payload checksum while the old header checksum is zero |
| `Corruption.WindowChangeRejected` | crates/gel-store/src/lib.rs:1203-1233 | so it is always rejected unless the window holds both byte 7 and byte 8; in particular every changed byte is |
| `Legacy.SomeGeneration` | crates/gel-store/src/lib.rs:86-103 | for every record count and payload checksum every 64-bit value is the header checksum of some generation |
| `Legacy.TurnsLegacy` | crates/gel-store/src/lib.rs:358-405 | a payload whose v1 digest equals its CRC has a valid v2 file that becomes an accepted v1 file by the change of two bytes |
| `Legacy.OnlyThenLegacy` | crates/gel-store/src/lib.rs:358-405 | no other payload has a valid v2 file with any accepted change inside eight bytes |
| `Parity.OddFlipsDetected` | crates/gel-core/src/lib.rs:189-194 | messages of any length that differ in an odd number of bits, wherever they are, never share a checksum (the generator is a multiple of x + 1) |
| `Parity.CrcKeepsParity` | crates/gel-core/src/lib.rs:92-105 | the checksum has the parity of its message |
| `Parity.AcceptedHeaderIsEven` | crates/gel-store/src/lib.rs:105-142 | every header that decodes has an even number of set bits, stored checksum included |
| `Parity.OddHeaderFlipsRejected` | crates/gel-store/src/lib.rs:581-593 | any odd number of bit flips anywhere in a valid v2 header is rejected, so every single-bit flip is |
| `Parity.OddPayloadFlipsRejected` | crates/gel-store/src/lib.rs:1203-1233 | any odd number of bit flips anywhere in the payload of a valid v2 file is rejected as corrupt |
| `TwoFlips.TwoFlipsRejected` | crates/gel-store/src/lib.rs:1112-1131 | any two flipped bits of a valid v2 header, wherever they are, are rejected |
| `TwoFlips.FewFlipsRejected` | crates/gel-store/src/lib.rs:1112-1131 | any one, two or three flipped bits of a valid v2 header are rejected |
| `TwoFlips.TwoPayloadBitsVerdict` | crates/gel-store/src/lib.rs:323-328 | two flipped payload bits of a valid v2 file leave it accepted if and only if 8589606914 divides their distance, and are reported as corrupt otherwise |
| `TwoFlips.FewPayloadFlipsRejected` | crates/gel-store/src/lib.rs:323-328 | any one, two or three flipped payload bits of a valid v2 file with at most 8589606914 of them are rejected as corrupt |
| `TwoFlips.DefaultFilesNoticeFewFlips` | crates/gel-store/src/lib.rs:151-157 | so are those of every valid v2 file that the default limits accept |
| `Publish.PublicationIsAtomic` | crates/gel-store/src/lib.rs:430-450 | after any steps, faults or crash the target holds its complete old bytes or the complete new encoding, no other existing path changes, and at most one temporary path is new |
| `Publish.ResultIsTruthful` | crates/gel-store/src/lib.rs:430-450 | the target changed exactly when the rename is among the steps, and then the file was synced before and no earlier step failed; the call succeeds exactly when the directory sync after it does, and it ends in an error after the rename exactly when that sync failed |
| `Publish.ErrorAfterRename` | crates/gel-store/src/lib.rs:444-463 | for every call of a Unix build that can publish there is a schedule that ends in an I/O error with the new store in place |
| `Publish.GuardWasEvaluated` | crates/gel-store/src/lib.rs:208-220 | without a misreported probe a guarded call that is not newer changes nothing and never renames; unless reading fails, its error says what is there |
| `Publish.GuardIsExact` | crates/gel-store/src/lib.rs:208-220 | with a truthful probe a guarded call can publish if and only if nothing is there or an intact v2 store of a smaller generation |
| `Publish.RefusalIsExact` | crates/gel-store/src/lib.rs:470-478 | the guard refuses nothing else, and each of its three errors names exactly one kind of predecessor: a generation at least as large, a v1 file, or bytes that do not verify |
| `Publish.GenerationIsStored` | crates/gel-store/src/lib.rs:470-478 | a path holds a generation if and only if its bytes are the image of a valid store of that generation |
| `Publish.EveryCallEnds` | crates/gel-store/src/lib.rs:499-532 | a call takes at most one step for each piece written, 128 temporary names and five more, and is stuck only when it is over |
| `Publish.CollisionsAreCounted` | crates/gel-store/src/lib.rs:507-531 | the call gives up at the 128th temporary name that is taken, and not before |
| `Publish.EveryStepFits` | crates/gel-store/src/lib.rs:499-532 | only a guarded call checks, only an existing file fails to be read or has its mode set, only a Unix build asks for the mode or fails to sync the directory |
| `Publish.FaultsAnywhere` | crates/gel-store/src/lib.rs:430-463 | in every unfinished state an I/O error can come next, so the results cover a failure of every system call |
| `Publish.GuardedReplacement` | crates/gel-store/src/lib.rs:208-220 | with a truthful probe a guarded call leaves the target alone, creates it, or replaces an intact v2 store by a strictly larger generation |
| `Publish.MisreportBypassesGuard` | crates/gel-store/src/lib.rs:210-219 | when `Path::exists` denies the file and the second probe answers, any guarded call replaces whatever is there |
| `Publish.BypassIsExact` | crates/gel-store/src/lib.rs:208-220 | a guarded call whose target exists and is not an intact v2 store of a smaller generation can publish if and only if the first probe denies the file and the second probe of a Unix build answers |
| `Publish.PublishesExactly` | crates/gel-store/src/lib.rs:499-504 | any call can publish if and only if the target admits it, where the guard is asked, and the second probe, where there is one, answers |
| `Publish.GenerationsOnlyGrow` | crates/gel-store/src/lib.rs:208-220 | over any single-writer run of truthful guarded calls the generation only grows, an existing file never vanishes, and a corrupt or v1 predecessor is never replaced |
| `Publish.EveryPrefixIsOrdered` | crates/gel-store/src/lib.rs:208-220 | the generations at any two points of such a run are ordered |
| `Views.ApplyView` | crates/gel-reader/src/lib.rs:118-168 | fails exactly for an even affine multiplier; otherwise output bit j is input bit `Source(j)`, complemented by the mask, for word-level code and bit loops alike |
| `Views.ViewBits` | crates/gel-reader/src/lib.rs:118-168 | which bit each of the six kinds of view reads and which ones it inverts |
| `Views.MaskIsMixed` | crates/gel-reader/src/lib.rs:113-116 | the mask of a word is the generator's draw from the seed XOR the word's multiple of the stated constant |
| `Views.RotatedBit` | crates/gel-reader/src/lib.rs:128-146 | the word-shift rotation equals bit rotation by b mod 1024, shift amount zero included |
| `Views.OddCancels` | crates/gel-reader/src/lib.rs:88-96 | an odd factor cancels modulo every power of two |
| `Views.SourceInjective` | crates/gel-reader/src/lib.rs:118-168 | for every raw `ViewSpec` that is accepted no two positions have the same source |
| `Views.SourceOnto` | crates/gel-reader/src/lib.rs:118-168 | and every position is some position's source: the views permute |
| `Views.InvertView` | crates/gel-reader/src/lib.rs:170-195 | fails exactly for an even affine multiplier; otherwise the result is the inverse bit map, for raw u16 fields too |
| `Views.RoundTrips` | crates/gel-reader/src/lib.rs:118-195 | `invert_view` undoes `apply_view` and the reverse, for every ORB and every accepted spec |
| `Views.InverseUndoesView` | crates/gel-reader/src/lib.rs:170-195 | an inverse of a view of an ORB is that ORB |
| `Views.ViewUndoesInverse` | crates/gel-reader/src/lib.rs:170-195 | a view of an inverse is the view it came from |
| `Views.ScoreIsInvariant` | crates/gel-reader/src/lib.rs:619-637 | one spec applied to both sides leaves the agreement count unchanged |
| `PhaseQuad.Rng.NextU64` | crates/gel-phase-quad/src/grid.rs:7-13 | one draw is one step of the 64-bit mixing generator |
| `PhaseQuad.NewGrid` | crates/gel-phase-quad/src/grid.rs:23-33 | accepts exactly 5 and 256 levels; offset j is the mixed state seed + j gammas modulo 2^64, reduced to a symbol |
| `PhaseQuad.DrawnState` | crates/gel-phase-quad/src/grid.rs:7-9 | after j draws the state is the seed plus j gammas modulo 2^64 |
| `PhaseQuad.GridRoundTrip` | crates/gel-phase-quad/src/grid.rs:57-88 | inverting a view gives the symbols back and the reverse, at every pole, with 5 and with 256 levels |
| `PhaseQuad.PolesAreDistinct` | crates/gel-phase-quad/src/grid.rs:57-72 | a view exists exactly for symbols of the grid and poles 0 to 3; pole 0 gives the carrier, pole 1 adds the offsets, pole 2 reverses, pole 3 reverses and then adds the offsets |
| `PhaseQuad.InversesAreDistinct` | crates/gel-phase-quad/src/grid.rs:73-88 | the same for the inverse, which takes each offset off at the position where the view put it on |
| `PhaseQuad.SupportIsMirrored` | crates/gel-phase-quad/src/grid.rs:89-96 | the activity is unchanged at poles 0 and 1, reversed at 2 and 3, and refused beyond |
| `PhaseQuad.PoleKeepsHistogram` | crates/gel-phase-quad/src/grid.rs:97-114 | viewing both sides at one pole, masks mirrored, leaves the difference histogram unchanged |
| `PhaseQuad.GridHistogram` | crates/gel-phase-quad/src/grid.rs:97-114 | bucket d counts the active positions whose symbols differ by d on the grid; the call fails exactly on symbols outside it |
| `PhaseQuad.NewRecord` | crates/gel-phase-quad/src/lib.rs:20-28 | packing the activity mask into words keeps every bit |
| `PhaseQuad.Prepare` | crates/gel-phase-quad/src/lib.rs:100-103 | the prepared query lists the active positions, each once, in increasing order |
| `PhaseQuad.Read` | crates/gel-phase-quad/src/lib.rs:110-127 | nothing exactly from a silent query; else bucket d counts the positions of the query's mask with phase difference d, under `BodyActivity` only those in the body's mask too; the buckets add up to the denominator under `Archive` and to the common support under `BodyActivity` |
| `PhaseQuad.ReferenceScore` | crates/gel-phase-quad/src/reference.rs:15-40 | for any index list the reference loop counts the differences of the two views over it, and answers nothing exactly when it is empty; over the active list that is the histogram |
| `PhaseQuad.PoleKeepsEvidence` | crates/gel-phase-quad/src/reference.rs:6-40 | same-pole views give the evidence of the canonical records, for both policies |
| `PhaseQuad.FourViewsAgree` | crates/gel-phase-quad/src/lib.rs:291-320 | for every pair of records, offset table, pole and policy the canonical read equals the reference on the two views of that pole, which are returned too |
| `PhaseQuad.BoundIsView` | crates/gel-phase-quad/src/bound_view.rs:46-59 | binding succeeds exactly at poles 0 to 3 and holds the two views of that pole under a descriptor that names pole and seed |
| `PhaseQuad.FromPartsIsExact` | crates/gel-phase-quad/src/bound_view.rs:25-34 | imported parts are accepted exactly under algorithm 1, 1024 dimensions, 256 levels and a pole up to 3 |
| `PhaseQuad.Restore` | crates/gel-phase-quad/src/bound_view.rs:63-70 | a bound view is restored exactly when seed and pole fit, to the inverse of its two parts; a wrong seed is reported first |
| `PhaseQuad.BindThenRestore` | crates/gel-phase-quad/src/bound_view.rs:46-70 | binding then restoring gives phase and mask back exactly for poles 0..3, and an error otherwise |
| `BankScan.ChunksFit` | crates/gel-phase-quad/src/lib.rs:167-173 | the split index is in range, at most 64 and at most n workers run, and the chunk size is the smallest with which their chunks cover the bank |
| `BankScan.BudgetIsExact` | crates/gel-phase-quad/src/lib.rs:56-66 | zero requested workers are an error; otherwise the number is the smallest of the request, the parallelism reported (at least one), 64 and the records |
| `BankScan.SlicesDisjoint` | crates/gel-phase-quad/src/lib.rs:167-180 | slices of different threads share no slot with each other, and neither shares one with the caller's chunk |
| `BankScan.EveryScanIsExact` | crates/gel-phase-quad/src/lib.rs:132-188 | under every interleaving, start refusal and stale buffer a finished scan ends in exactly the result its input calls for; a success holds in slot i the serial read of record i, counted from the bits of both masks; an error or an empty query leaves the buffer empty |
| `BankScan.ThreadsAreBounded` | crates/gel-phase-quad/src/lib.rs:56-66 | at no time do more threads work on the bank than were requested, than the system reports, than records, or than 64, and the refill starts only after all started ones are done |
| `BankScan.EveryScanFinishes` | crates/gel-phase-quad/src/lib.rs:132-188 | no reachable unfinished scan is stuck, and every step decreases a bound |
| `BankScan.EveryRefusalOccurs` | crates/gel-phase-quad/src/lib.rs:170-188 | the start of any thread may be refused, and the scan then still ends |
| `CodeSpans.RunsAreMaximal` | xtask/src/main.rs:453-462 | the declared runs are exactly the maximal blocks of backticks |
| `CodeSpans.RunsAscend` | xtask/src/main.rs:453-473 | runs are listed in order and do not overlap |
| `CodeSpans.FindCloser` | xtask/src/main.rs:464-478 | the inner scan stops after the first later run of equal width, or at the end of the line |
| `CodeSpans.SpansAreExact` | xtask/src/main.rs:449-485 | the spans are the pieces between runs of equal width, the closer being the first such run after its opener, pairs following one another, and no run outside them having a later run of its width |
| `CodeSpans.PairingIsUnique` | xtask/src/main.rs:443-448 | there is only one such pairing |
| `CodeSpans.CodeSpansOf` | xtask/src/main.rs:449-485 | the backtracking scanner terminates on every line and returns exactly the spans of the declarative scan, the pieces of the line between its paired runs |
| `Catalog.Load` | crates/gel-source/src/lib.rs:111-202 | for any catalog and text bytes, pins and hash function: sizes over a limit give `Limit`, then a digest that is not its pin gives `Integrity`, then bad UTF-8 or a bad frame gives `Format`; then it succeeds exactly when there are lines, all decode and their rows are consistent and within the limit, and otherwise ends in the error of the first line that breaks this; a loaded corpus has both digests pinned and its records ordered, bounded, cut between characters and of one title and entry for each node |
| `Catalog.StopIsUnique` | crates/gel-source/src/lib.rs:131-187 | that line and its error are unique |
| `Catalog.StopReason` | crates/gel-source/src/lib.rs:131-187 | the error of the refused line: too many records, the line's own, another entry or title for its node, a repeated address, whichever comes first |
| `Catalog.LineReason` | crates/gel-source/src/lib.rs:135-157 | the line's own error, check by check: field count and numbers, length, passage bounds, hash form, hash, title, section |
| `Catalog.SplitJoins` | crates/gel-source/src/lib.rs:135-138 | cutting a line into at most n fields loses nothing, and fewer than n fields hold no separator |
| `Catalog.SplitOfJoined` | crates/gel-source/src/lib.rs:135-138 | fields without the separator are found again |
| `Catalog.UnhexIsExact` | crates/gel-source/src/lib.rs:67-90 | a text is the hexadecimal form of some bytes for one byte string only, and every byte string has one such form |
| `Catalog.NumberIsExact` | crates/gel-source/src/lib.rs:91-97 | a field reads as a number exactly when it is its canonical decimal form and the number has 64 bits |
| `Catalog.LabelIsExact` | crates/gel-source/src/lib.rs:98-107 | a field reads as a label exactly when it is the hexadecimal form of the bytes of a nonblank string of at most 512 bytes without control characters |
| `Catalog.ValidLabelIsExact` | crates/gel-source/src/lib.rs:98-107 | such a string has a character outside the white space of Unicode and none of the codes 0 to 31 and 127 to 159 |
| `SourceParts.BoundaryIsExact` | crates/gel-source/src/lib.rs:149-150 | a passage may be cut before every byte except those of the form 10xxxxxx |
| `Catalog.LineIsCanonical` | crates/gel-source/src/lib.rs:135-157 | a line decodes to a row exactly when the row can be written and the line is how it is written |
| `Catalog.CatalogIsImage` | crates/gel-source/src/lib.rs:123-187 | a framed catalog decodes to a list of rows exactly when it is the image of that list: no two catalogs have the same rows, and whatever can be written is read back |
| `Catalog.LoadsExactlyImages` | crates/gel-source/src/lib.rs:123-187 | the catalogs that pass the frame and every line check are exactly the images of 1 to 50000 rows without a repeated address and with one entry and title for each node |
| `Catalog.Spelling` | crates/gel-source/src/lib.rs:67-90 | hexadecimal digits are lowercase, and the magic line reads GELCORPUS082 |
| `SourceParts.FirstSeenIsExact` | crates/gel-source/src/lib.rs:160-175 | the entry of a title lists exactly the nodes that carry it, each once |
| `SourceParts.FirstSeenOrder` | crates/gel-source/src/lib.rs:160-175 | and lists them in the order in which they first occur |
| `SourceParts.TitleIsUnique` | crates/gel-source/src/lib.rs:213-218 | a lookup answers one node exactly when that node alone carries the normalized title |
| `SourceParts.ClassifyIsExact` | crates/gel-source/src/parts.rs:22-44 | a heading is classified as a part exactly when it is that part's one label: bare family, or family, space and canonical number 1..50000 in parentheses |
| `SourceParts.RefusalIsExact` | crates/gel-source/src/parts.rs:22-44 | a heading is refused exactly when it is a family name, whitespace or nothing, and an opening parenthesis, but no part's label |
| `SourceParts.DecimalParses` | crates/gel-source/src/parts.rs:34-39 | parsing the canonical decimal form of a number gives the number |
| `SourceParts.DecimalIsCanonical` | crates/gel-source/src/lib.rs:91-97 | the canonical decimal form of a number is the one string of digits with that value and no leading zero |
| `LeadParts.LeadParts` | crates/gel-source/src/parts.rs:52-105 | succeeds exactly when any expected count is between 1 and 50000, the title names one node, and that node has sections, of the expected number if any, that are headed by one bare family name or by one family name with the numbers 1, 2, ... in order, fit the byte cap together and are the only ones with such headings; the answer is their exact passages in that order; otherwise the error is the one declared for the request |
| `LeadParts.GatherAll` | crates/gel-source/src/parts.rs:65-86 | the loop succeeds exactly when no heading is refused and the leads are compatible and fit |
| `LeadParts.StopIsUnique` | crates/gel-source/src/parts.rs:68-86 | the section the loop stops at and its error are unique |
| `LeadParts.StopReason` | crates/gel-source/src/parts.rs:65-86 | the error of that section: a refused heading, an earlier label of another family or kind, too many bytes, or a repeated heading, whichever comes first |
| `LeadParts.PartsReason` | crates/gel-source/src/parts.rs:87-99 | otherwise the error says that no heading is a label, that some number up to the count of parts is missing, or that a complete answer has another length than expected |
| `LeadParts.CompleteIsAnswerable` | crates/gel-source/src/parts.rs:65-99 | what the loop and the final checks accept is exactly what can be put in part order |
| `LeadParts.LoadedIsValid` | crates/gel-source/src/lib.rs:111-202 | a loaded corpus meets what the lookup needs |
| `PointerChase.Shuffle` | crates/gel-physics/src/main.rs:147-151 | the in-place loop performs the declared swaps |
| `PointerChase.ShuffledPermutes` | crates/gel-physics/src/main.rs:147-151 | for any random words the shuffled order holds every slot once |
| `PointerChase.EveryOrderIsDrawn` | crates/gel-physics/src/main.rs:147-151 | every order of the slots is the result of some draws |
| `PointerChase.DrawsAreUnique` | crates/gel-physics/src/main.rs:147-151 | and of one sequence of reduced draws only, so the shuffle favours no order |
| `PointerChase.BuildTable` | crates/gel-physics/src/main.rs:143-156 | for every slot count of at least 2 and any random choices the table is one cycle through all slots |
| `PointerChase.CursorPosition` | crates/gel-physics/src/main.rs:158-161 | after m steps the cursor is at `order[m mod slots]` |
| `PointerChase.LapsVisitEvenly` | crates/gel-physics/src/main.rs:157-161 | c laps visit every slot exactly c times |
| `PointerChase.VisitsAreBalanced` | crates/gel-physics/src/main.rs:157-161 | after any number of steps the visit counts of two slots differ by at most one |
| `PointerChase.Chase` | crates/gel-physics/src/main.rs:143-165 | the measured walk ends where the cycle says, and a four-lap walk visits every slot four times |

## Left out

- Legacy.TurnsLegacy: no payload is exhibited whose v1 digest equals its CRC.
- Store.FromOrbs: fewer than 2^64 records, as any memory guarantees.
- Structural.PackPositions: positions below 1024, which its only caller guarantees.
- Catalog.Load: SHA-256, UTF-8 decoding and the normalization of titles are arbitrary functions; the theorems on canonical form assume digests of 32 bytes and a decoder that inverts an encoder. The text is a byte string. Lines are cut in the bytes of the catalog, which in valid UTF-8 is the same as in its characters.
- LeadParts.LeadParts: records are the ascending list that iterating over the ordered map yields. A failing lookup of a listed record never occurs, so that error arm is left out.
- BankScan.EveryScanIsExact: the score is the difference histogram and the denominator; the cosine sum over them, like every floating-point reduction (similarity, phi, Jaccard, DER ratios, `quantize`), is an opaque function of these integers.
- The `reader16` ratios, `lane_reduce`, timing, percentiles, reports and benchmark drivers: floating point or single-pass accumulation.
- `reference_tokens`, `fence_width`, `is_reference` and the other `xtask` gates, `valid_path`, manifest and licence checks: single-pass text checks.
- `validate` of a passage: one comparison. The root of a corpus is not modelled; the hash kept with a record is that of its passage.
- Detection claims for the v1 digest, and for the CRC beyond one 64-bit window, odd numbers of flips and two flips: four flips, say.
- The operating system: permissions and modes, durability of a sync, symbolic links, concurrent writers, an aborting build. A failing system call is a fault step that may occur anywhere.
- Allocation failure is a parameter (`capacity`, `allocates`) where the code reports it, and left out where it aborts.
- 32-bit targets: `usize` is 64 bits wide, so conversions from `u64` do not fail.
- A panic of the calling thread during Top-1, which the documentation excludes too.
- Sixteen-bit counters: every count is at most 1024, so the model uses unbounded naturals.
