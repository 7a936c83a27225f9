# lamzfs in Dafny

`lamzfs` is a read-only ZFS reader. This project models the parts of it that are
hard to get right and proves what they promise:

- **RAID-Z1.** `RaidzGeometry` numbers the sectors of a vdev row by row and shows
  that the columns of a block are exactly one contiguous run of them. `RaidzMap` is
  the same in bytes, with the 64-bit wrap-around of the source and the exact
  condition under which it does no harm. `RaidzRead` proves that losing any one device
  changes no read, and exactly when corrupting one changes none; `RaidzFletcher` shows
  that with Fletcher-4 that condition can fail.
- **Block reads.** `Devices`, `BlockVerify`, `BlockReader` and `BlockCopies`: single
  leaves and mirrors return the first verifying copy; on every layout nothing unverified is returned.
- **LZJB.** `LzjbSpec`, `LzjbProofs`, `Lzjb`, `LzjbBounds`, `LzjbDecoding`, `LzjbFormat`: the
  encoder with its hash table of truncated positions and back-patched copy map, the round trip,
  when the output buffer is large enough, and when the result of decompressing arbitrary
  bytes depends on them alone. `LzjbFormat` says what the bytes mean in plain numbers.
- **Checksums.** `FletcherSpec`, `Fletcher`, `FletcherStream`: two and four lanes equal
  the one-lane fold modulo 2^64, for Fletcher-2 and Fletcher-4, in both byte orders,
  however the input is split. `FletcherClosed` gives each word as a weighted sum.
  `Sha256Spec`, `Sha256Words`, `Sha256`, `Sha256Stream`,
  `Sha256Digest`: the unrolled, register-renamed block function and the streaming
  object equal FIPS 180-4. `Sha256Constants` derives the constants from the primes and
  `Sha256Fips` writes the rounds out.
- **Files.** `IndirectTree`: the walk down the indirect blocks is a flat list of
  answers, on damaged trees too. `FileRange` and `FileReader`: byte ranges are stretches of a sparse byte
  array, and windows of a file concatenate to the file. `PoolStore` joins the tree to
  the pointer codec and the block reader.
- **Codecs.** `BitFields`, `PointerCodec`, `PointerBytes`: block pointers round trip in
  either byte order. `Cursors`, `Xdr` and `XdrRuns`: decoder and encoder cursors, and XDR.
  `PointerFormat` and `XdrFormat` say what the bytes mean in plain numbers.
- **Bounded walks.** `Datasets`, `DatasetOrder` and `ZapChunks`.

`Base`, `BitOps`, `Endian`, `Errors` and `BlockPointers` hold what the others share.
`BitOps.Scale` and `BitOps.Divide` are multiplication by repeated addition and division
by repeated subtraction; `ScaleIs` and `DivideIs` say they are `*`, `/` and `%`.

How the model relates to the source:

- `usize` is 64 bits. Machine integers are `int` subset types; wrap-around, truncating
  casts and dropped shift bits are written out.
- Code that updates things in place is modelled with arrays, classes and loops, and
  each such method is proved equal to a specification function about which the
  properties are then proved.
- A device is a partial function of offset and length. The digest and decompression
  functions called by the block reader are parameters (`Devices.Pool`);
  `BlockVerify.PoolOf` supplies the digests.
- The documentation of `datasets` (src/lib.rs:190-191) calls the order breadth-first.
  The code pops the most recently pushed path; `DatasetOrder` gives an input where the
  order differs and the exact condition under which it does not.
- The left shift and the addition in `raidz_map` are taken as they behave without
  overflow checks (they drop high bits and wrap); `RaidzMap.OffsetsExact` gives the
  exact condition under which the result is the true offset, and
  `RaidzMap.WrappedOffsetsCollide` shows two blocks that collide outside it.

## Model

| member | source | states |
|---|---|---|
| `RaidzGeometry.ColumnSector` | src/vdev.rs:239-265 | row j of column c is logical sector b + c + j·d: child is the remainder, row the quotient by d |
| `RaidzGeometry.LayoutIsRun` | src/vdev.rs:239-265 | a logical sector is in some column exactly when it is in the run of q·d + bc sectors from b |
| `RaidzGeometry.ColumnsDisjoint` | src/vdev.rs:248-265 | no sector is in two columns |
| `RaidzGeometry.BlocksDisjoint` | src/vdev.rs:239-265 | blocks with disjoint runs share no child sector |
| `RaidzGeometry.DataRowsAre` | src/vdev.rs:241-259 | the data columns hold exactly the s data sectors |
| `RaidzMap.OffsetsExact` | src/vdev.rs:240-253 | the 64-bit byte offsets equal row times sector size for all columns if and only if they fit 64 bits |
| `RaidzMap.DvaFits` | src/vdev.rs:231-253 | a DVA whose byte offset fits 64 bits has exact column offsets |
| `RaidzMap.WrappedOffsetsCollide` | src/vdev.rs:231-264 | beyond 64 bits the sector addresses 2^56 and 0, whose runs are disjoint, get the same first column |
| `RaidzMap.BytesDisjoint` | src/vdev.rs:239-265 | blocks with disjoint runs share no byte of any child |
| `RaidzMap.DataBytesRoundUp` | src/vdev.rs:234-259 | data column sizes sum to the block size rounded up to whole sectors |
| `RaidzMap.RaidzColumns` | src/vdev.rs:214-267 | the map equals the layout, and is an error exactly for too few children, a bad ashift or size zero |
| `RaidzMap.Deal` | src/vdev.rs:239-266 | the loop builds every column of the layout with all values in 64 bits |
| `RaidzMap.MakeColumn` | src/vdev.rs:249-264 | device, offset and size of one column with the wrap to the next row |
| `RaidzMap.FirstSector` | src/vdev.rs:231-232 | the sector of 2^ashift bytes that the 512-byte address is in |
| `RaidzRead.ReadColumn` | src/vdev.rs:278-293 | a column is read exactly when its child has a device, the offset fits 64 bits and the device fills all of it, and is then what the device gives |
| `RaidzRead.Assemble` | src/vdev.rs:299-322 | the data columns in order, one replaced, cut to the block size; nothing when one is missing |
| `RaidzRead.XorInto` | src/vdev.rs:342-344 | each byte is XORed with the other column padded with zeros |
| `RaidzRead.Reconstruct` | src/vdev.rs:327-347 | a column is rebuilt as the XOR of the others with parity, nothing when one of them or the column itself is missing from the map |
| `RaidzRead.RebuildsLost` | src/vdev.rs:324-347 | if column 0 is the XOR of the zero-padded data columns, rebuilding gives back the lost column |
| `RaidzRead.Search` | src/vdev.rs:387-406 | the first accepted candidate: columns as read, then each data column rebuilt in turn |
| `RaidzRead.Read` | src/vdev.rs:352-414 | copies in order, accepted bytes inflated, the last error otherwise |
| `RaidzRead.StripeHoldsBlock` | src/vdev.rs:299-322 | a block whose bytes the data columns of its map hold one after another is put together again |
| `RaidzRead.ParityBits` | src/vdev.rs:324-347 | a bit of the parity column is set when an odd number of the data columns have it set |
| `RaidzRead.CandidateIsBlock` | src/vdev.rs:387-406 | with at most one column bad, one of the candidates is the block as written |
| `RaidzRead.CopiesTry` | src/vdev.rs:352-414 | the copies are read to the first candidate that the checksum accepts |
| `RaidzRead.FirstIsBlock` | src/vdev.rs:387-406 | of candidates that include the block it is returned exactly when it is accepted and unrivalled: nothing else accepted comes before its first occurrence |
| `RaidzRead.DegradedReadIsTransparent` | src/vdev.rs:271-414 | a block written in some copy of which at most one column is bad: it is read if and only if the checksum accepts it and no candidate tried before rivals it |
| `RaidzRead.DegradedReadAsHealthy` | src/vdev.rs:271-414 | a damaged pool answers as the whole one if and only if no candidate it tries before rivals the block |
| `RaidzRead.OneColumnPerChild` | src/vdev.rs:247-265 | a child holds at most one column of a block |
| `RaidzRead.OneDeviceLost` | src/vdev.rs:352-414 | with one device missing or holding anything at all, a block reads as before if and only if no candidate now tried before the right one is accepted |
| `RaidzRead.OneDeviceMissing` | src/vdev.rs:352-414 | with one device missing, a block accepted and whole in its first copy reads as before, whatever else the checksum accepts |
| `RaidzFletcher.FiveWordsRival` | src/checksum/fletcher4.rs:504-560 | five words changed by 1, -4, 6, -4, 1 have the same sums, whatever came before |
| `RaidzFletcher.SameChecksum` | src/checksum/fletcher4.rs:504-560 | so bytes with five such words in a row have the checksum of other bytes of the same length |
| `RaidzFletcher.ReadsItsRival` | src/vdev.rs:387-395 | a Fletcher-4 pool in which the condition of `OneDeviceLost` fails: the rival on the changed device is read |
| `RaidzRead.NothingUnverified` | src/vdev.rs:374-406 | with checksumming on, only bytes with the pointer's digest are inflated |
| `BlockVerify.Compute` | src/cksum.rs:84-108 | each algorithm: Fletcher-2 and Fletcher-4 are the one-lane fold, SHA-256 and label are FIPS 180-4 |
| `BlockVerify.VerifyBlock` | src/cksum.rs:67-117 | refuses exactly a block whose recomputed words differ, or whose algorithm is not there; off refuses nothing |
| `BlockVerify.Algorithms` | src/cksum.rs:84-108 | which numbers are which algorithm, and what acceptance is for each |
| `FletcherClosed.Fletcher4Is` | src/checksum/fletcher4.rs:504-560 | the four words are the sums of the 32-bit numbers weighted by 1, m, m(m+1)/2 and m(m+1)(m+2)/6, m from the end, modulo 2^64 |
| `FletcherClosed.Fletcher2Is` | src/checksum/fletcher2.rs:458-516 | the four words are the plain sums and the sums weighted by m of the first and second 64-bit numbers of every 16 bytes, modulo 2^64 |
| `FletcherClosed.NumberAt` | src/checksum/fletcher4.rs:504-560 | which bytes each of those numbers is in |
| `BlockReader.ByteOffset` | src/vdev.rs:90-96 | offset times 512 plus 4 MiB, refused exactly when it does not fit 64 bits |
| `BlockReader.FirstVerifiedWins` | src/vdev.rs:151-194 | the first verifying copy in (address, member) order is returned whatever failed before |
| `BlockReader.NoneVerifiedFails` | src/vdev.rs:147-194 | no verifying copy means an error |
| `BlockReader.MirrorRead` | src/vdev.rs:119-197 | both halves for a pointer on a leaf or mirror |
| `BlockCopies.FirstCopyWins` | src/vdev.rs:119-197 | on the raw pointer: the first of its addresses, and then of the leaves, that has an accepted copy 4 MiB past 512 times the offset, inflated to 512 times the logical sectors |
| `BlockCopies.NoCopyFails` | src/vdev.rs:119-197 | on the raw pointer: no copy at any address and leaf is an error |
| `BlockCopies.Refused` | src/vdev.rs:121-142 | size 0, over 16 MiB, a gang address or one off vdev 0 is refused, with its error |
| `BlockReader.NothingUnverified` | src/vdev.rs:119-197 | on every layout what is returned was inflated from bytes with the pointer's digest |
| `BlockReader.CheckPlaces` | src/vdev.rs:128-142 | the first gang or foreign address is the error |
| `BlockReader.WhatIsPlaced` | src/vdev.rs:128-142 | there is no such error exactly when every address is plain and on vdev 0 |
| `BlockReader.ReadCopies` | src/vdev.rs:147-194 | the nested loops are the search over (address, member) |
| `BlockReader.ReadBlockPointer` | src/vdev.rs:102-197 | embedded, encrypted and regular pointers, with the checks in the source's order |
| `LzjbSpec.Parse` | src/compression/lzjb.rs:223-360 | the greedy parse covers the source exactly |
| `LzjbSpec.TokenFrom` | src/compression/lzjb.rs:314-359 | the chosen token stands for the source bytes at the position |
| `LzjbSpec.TableAfter` | src/compression/lzjb.rs:272-315 | despite 16-bit truncation no table entry exceeds the source index |
| `LzjbSpec.MatchLength` | src/compression/lzjb.rs:331-341 | the longest match up to the maximum |
| `LzjbDecoding.CopyKeeps` | src/compression/lzjb.rs:444-458 | a copy changes no byte outside those it writes |
| `LzjbDecoding.SourceAloneDecides` | src/compression/lzjb.rs:387-478 | a successful decompression gives the same bytes whatever the buffer held if and only if no executed copy has offset 0 |
| `LzjbDecoding.RunAgrees` | src/compression/lzjb.rs:387-478 | without such a copy, runs that agree on what is written end alike |
| `LzjbDecoding.OldByteSurvives` | src/compression/lzjb.rs:430-458 | at such a copy the byte the buffer held is in the output |
| `LzjbDecoding.RunAbreast` | src/compression/lzjb.rs:387-478 | success, the error and the place of the first such copy never depend on the buffer |
| `LzjbDecoding.BufferShowsThrough` | src/compression/lzjb.rs:430-458 | three source bytes that leave any three-byte buffer as it was |
| `LzjbProofs.MapByteBit` | src/compression/lzjb.rs:328-328 | bit k of the back-patched map says whether block k is a copy |
| `LzjbProofs.CopyMatches` | src/compression/lzjb.rs:322-352 | expanding a match, overlapping or not, gives the source bytes |
| `LzjbProofs.DecodeOneBlock` | src/compression/lzjb.rs:412-475 | one block decodes to its token's effect |
| `LzjbProofs.DecodeTokens` | src/compression/lzjb.rs:387-478 | decoding serialized tokens into a buffer of any length expands them up to its end |
| `LzjbProofs.CutBlock` | src/compression/lzjb.rs:430-458 | the last copy is cut to the end of the buffer |
| `LzjbProofs.OutOfInput` | src/compression/lzjb.rs:400-475 | with room left and no input the decoder ends in the end-of-input error |
| `LzjbProofs.CoveringExpands` | src/compression/lzjb.rs:223-360 | tokens that cover the source expand to it |
| `LzjbProofs.CoveringRoundTrip` | src/compression/lzjb.rs:205-479 | any covering parse decompresses to the source, as much as there is room for, with any bytes after it |
| `LzjbProofs.RoundTrip` | src/compression/lzjb.rs:205-479 | what the encoder emits decompresses, into any buffer up to the length of the source, to that much of it, and into a longer one to an end-of-input error |
| `LzjbProofs.ParseIgnoresUnused` | src/compression/lzjb.rs:121-201 | table slots not in use never reach the output |
| `LzjbBounds.AlwaysFits` | src/compression/lzjb.rs:228-239 | compression succeeds with room for an eighth and 17 bytes more than the source |
| `LzjbBounds.EncodedSize` | src/compression/lzjb.rs:205-363 | the output is at most an eighth, rounded up, longer than the source |
| `Lzjb.PutBlock` | src/compression/lzjb.rs:326-358 | writes a block and its map bit in bounds, keeping the open group |
| `Lzjb.MatchFrom` | src/compression/lzjb.rs:331-341 | the match loop finds the longest match |
| `Lzjb.NextBit` | src/compression/lzjb.rs:224-249 | opens a group after eight blocks; fails exactly when 17 bytes are not left |
| `Lzjb.LzjbEncoder.NextToken` | src/compression/lzjb.rs:253-359 | picks the specified token and updates the table |
| `Lzjb.LzjbEncoder.CompressWith` | src/compression/lzjb.rs:212-363 | succeeds exactly when every group has room, and then writes the serialized parse |
| `Lzjb.LzjbEncoder.Compress` | src/compression/lzjb.rs:205-363 | whatever earlier use, writes the encoding, which decompresses to the source into a buffer of any length as `RoundTrip` says |
| `Lzjb.LzjbEncoder.CompressPreV21` | src/compression/lzjb.rs:121-201 | the same for the older hash, which clears only 256 slots |
| `Lzjb.Decompress` | src/compression/lzjb.rs:372-479 | the loop on the mask and the buffer is the specified decoder, errors included |
| `Lzjb.CopyForward` | src/compression/lzjb.rs:454-458 | the byte-by-byte forward copy |
| `LzjbFormat.MapOfGroup` | src/compression/lzjb.rs:387-410 | a map byte says of the next eight blocks which are copies, low bit first |
| `LzjbFormat.CopyBlock` | src/compression/lzjb.rs:412-458 | bytes b0, b1: offset b0 % 4 * 256 + b1, length b0 / 4 + 3 or the room; refused exactly when it reaches back too far; else each byte is the one that far back and no other changes |
| `LzjbFormat.LiteralBlock` | src/compression/lzjb.rs:459-475 | one byte, or the end-of-input error |
| `LzjbFormat.HashesAre` | src/compression/lzjb.rs:160-272 | both hashes in plain numbers, the older bit by bit |
| `LzjbFormat.ChoiceIs` | src/compression/lzjb.rs:253-315 | literal with fewer than 66 bytes left; else the hash slot is looked up and updated |
| `LzjbFormat.CopyIs` | src/compression/lzjb.rs:314-341 | a copy exactly when the slot is 1 to 1023 back modulo 1024 and three bytes agree, as long as they agree up to 66 |
| `LzjbFormat.BlockIs` | src/compression/lzjb.rs:343-358 | the two bytes of a copy, the one of a literal |
| `LzjbFormat.FitsIs` | src/compression/lzjb.rs:228-239 | room is 17 bytes left at the start of every eight blocks |
| `FletcherSpec.CombineStep` | src/checksum/fletcher4.rs:409-464 | one unit to each lane and then combining is folding the units in turn, exactly |
| `FletcherSpec.CombineWraps` | src/checksum/fletcher4.rs:409-464 | combining respects reduction modulo 2^64 |
| `FletcherSpec.LanesRefineFold` | src/checksum/fletcher4.rs:409-815 | for every sequence of whole lane blocks, lanes combined equal the fold modulo 2^64 |
| `FletcherSpec.FoldConcat` | src/checksum/fletcher4.rs:504-560 | the fold over a concatenation |
| `FletcherSpec.UnitsConcat` | src/checksum/fletcher4.rs:1483-1522 | units of a concatenation of whole units |
| `Fletcher.SumAndMul` | src/checksum/fletcher4.rs:344-357 | the sum times a factor modulo 2^64 |
| `Fletcher.MulAndSum` | src/checksum/fletcher4.rs:360-373 | the weighted sum modulo 2^64 |
| `Fletcher.FinishDual4` | src/checksum/fletcher4.rs:409-434 | the wrapping formula is the two-lane combination |
| `Fletcher.FinishQuad4` | src/checksum/fletcher4.rs:437-464 | the wrapping formula is the four-lane combination |
| `Fletcher.FinishDual2` | src/checksum/fletcher2.rs:378-403 | the two-lane combination for Fletcher-2 |
| `Fletcher.FinishQuad2` | src/checksum/fletcher2.rs:406-455 | the four-lane combination for Fletcher-2 |
| `FletcherStream.UpdateGeneric` | src/checksum/fletcher4.rs:504-560 | one lane, both orders |
| `FletcherStream.UpdateSuperscalar2` | src/checksum/fletcher4.rs:562-662 | two lanes, both orders |
| `FletcherStream.UpdateSuperscalar4` | src/checksum/fletcher4.rs:664-815 | four lanes, both orders |
| `FletcherStream.FoldBytes` | src/checksum/fletcher4.rs:1524-1546 | the left-over whole words are folded one at a time |
| `FletcherStream.FinishOfIsFold` | src/checksum/fletcher4.rs:1524-1546 | finishing after whole blocks is the checksum of those blocks, for every width |
| `FletcherStream.Stream.Reset` | src/checksum/fletcher4.rs:1469-1481 | nothing of earlier use survives |
| `FletcherStream.Stream.UpdateBlocks` | src/checksum/fletcher4.rs:1483-1522 | the lanes have taken the blocks so far |
| `FletcherStream.Stream.TopUp` | src/checksum/fletcher4.rs:1483-1506 | a waiting partial block is filled first |
| `FletcherStream.Stream.Update` | src/checksum/fletcher4.rs:1483-1522 | the input grows by the data, buffering the remainder |
| `FletcherStream.Stream.Finalize` | src/checksum/fletcher2.rs:1313-1335 | for every width and split, the checksum of the longest whole-unit prefix of the input |
| `FletcherStream.Stream.Hash` | src/checksum/fletcher4.rs:1548-1553 | one shot, whatever state earlier use left |
| `Sha256Words.NestedRotations` | src/checksum/sha256.rs:725-774 | the nested rotations are the Sigma functions |
| `Sha256Words.MixIsFips` | src/checksum/sha256.rs:711-781 | the round macro is a round of section 6.2.2 of FIPS 180-4 |
| `Sha256Words.NextIsFips` | src/checksum/sha256.rs:787-883 | the schedule step is that of section 6.2.2 |
| `Sha256Words.SourceIsFips` | src/checksum/sha256.rs:711-883 | both round forms and the schedule agree with the standard on every word |
| `Sha256Words.ChChooses` | src/checksum/sha256.rs:718-722 | Ch takes the bits of its second word where the first has ones, of its third elsewhere |
| `Sha256Words.MajIsMajority` | src/checksum/sha256.rs:751-755 | Maj takes the bits two words agree on, else the third's |
| `Sha256Constants.PrimesAre` | src/checksum/sha256.rs:164-175 | the 64 numbers are the primes up to 311 |
| `Sha256Constants.PrimesAscend` | src/checksum/sha256.rs:164-175 | in ascending order |
| `Sha256Constants.ConstantsAre` | src/checksum/sha256.rs:164-175 | round constant i is the first 32 bits of the fraction of the cube root of the i-th prime, as section 4.2.2 of FIPS 180-4 has it |
| `Sha256Constants.StartIs` | src/checksum/sha256.rs:176-180 | the first hash value is that of the square roots of the first eight primes, as section 5.3.3 has it |
| `Sha256Fips.RoundIs` | src/checksum/sha256.rs:711-781 | a round on the operators of words, rotations as shifts |
| `Sha256Fips.ScheduleIs` | src/checksum/sha256.rs:787-883 | the schedule likewise |
| `Sha256Fips.BlockIs` | src/checksum/sha256.rs:885-965 | a block is 64 rounds on its big-endian words, added to the hash value |
| `Sha256Spec.BlocksConcat` | src/checksum/sha256.rs:897-964 | compressing a concatenation of whole blocks |
| `Sha256Spec.BlocksAgree` | src/checksum/sha256.rs:897-964 | operations that agree give the same chaining value for every message |
| `Sha256Spec.PaddingFills` | src/checksum/sha256.rs:2398-2431 | the padding is the shortest that ends on a block |
| `Sha256Spec.PaddingIs` | src/checksum/sha256.rs:2398-2431 | 0x80, zeros, and eight bytes that spell the length in bits, to a multiple of 64 |
| `Sha256.Rounds4` | src/checksum/sha256.rs:907-923 | four rounds with renamed registers are four rounds of the standard |
| `Sha256.ScheduleAndRounds8` | src/checksum/sha256.rs:928-944 | eight rounds with the schedule extended in place |
| `Sha256.BlockRounds` | src/checksum/sha256.rs:897-945 | the 64 rounds of one block |
| `Sha256.UpdateBlocks` | src/checksum/sha256.rs:885-965 | the block loop is the standard's chaining over all blocks |
| `Sha256Stream.Stream.Reset` | src/checksum/sha256.rs:2346-2353 | nothing of earlier use survives |
| `Sha256Stream.Stream.TopUp` | src/checksum/sha256.rs:2355-2379 | a waiting partial block is filled first |
| `Sha256Stream.Stream.Update` | src/checksum/sha256.rs:2355-2396 | the input grows by the data, for any split |
| `Sha256Stream.Stream.MakeRoom` | src/checksum/sha256.rs:2408-2420 | when the length does not fit, the block is filled and compressed by itself |
| `Sha256Stream.Stream.Finalize` | src/checksum/sha256.rs:2398-2442 | the hash of the whole input, one- and two-block padding alike |
| `Sha256Stream.Stream.HashAll` | src/checksum/sha256.rs:2445-2449 | one shot, whatever state earlier use left |
| `Sha256Digest.PackInjective` | src/checksum/sha256.rs:2436-2442 | the four 64-bit words determine the eight registers |
| `Sha256Digest.PackIs` | src/checksum/sha256.rs:2436-2442 | the registers in order, two to a word, the first in the high half |
| `Sha256Digest.Digest` | src/checksum/sha256.rs:2398-2449 | the digest is that of FIPS 180-4 for every message under 2^61 bytes |
| `IndirectTree.WalkIsFlat` | src/file.rs:46-121 | for every store and 1 to 16 levels the walk is a flat list of answers: block, hole, or the error of what is broken above it; nothing past the end |
| `IndirectTree.DescendIsFlat` | src/file.rs:87-115 | following the base-2^shift digits finds the answer the flat list has there |
| `IndirectTree.FlatSize` | src/file.rs:64-84 | a pointer of level l stands for 2^(shift * l) answers, broken or not |
| `IndirectTree.FlatAllAt` | src/file.rs:79-84 | the flat list of trees is indexed by quotient and remainder |
| `IndirectTree.PathsDistinct` | src/file.rs:79-94 | distinct ids reach distinct leaf slots |
| `IndirectTree.ExponentBound` | src/file.rs:64-79 | every shift of the walk is below 64 once the top one is |
| `IndirectTree.ShiftIs` | src/file.rs:64-66 | 2^shift slots of 128 bytes are 2^indirectShift bytes; below 7 the shift is 0 |
| `IndirectTree.SlotsFill` | src/file.rs:93-101 | a full indirect block has exactly the slots below 2^shift, 128 bytes each |
| `IndirectTree.DigitIs` | src/file.rs:79-94 | the slot at level l is id / 2^(shift * (l - 1)) modulo 2^shift |
| `IndirectTree.WalkLimits` | src/file.rs:53-78 | no levels is a hole; over 16, or a shift of 64 and more, is refused |
| `IndirectTree.ReadDnodeBlock` | src/file.rs:46-121 | the loop is the walk, error cases included |
| `IndirectTree.SelectSlot` | src/file.rs:93-107 | the mask selects the digit's slot, with byte bounds that fit 64 bits |
| `FileRange.IdBound` | src/file.rs:134-149 | every derived block id is below 2^55 |
| `FileRange.RangeIsSparse` | src/file.rs:126-164 | for every range: it reads as data if and only if there is a block size, the range is empty or starts below 2^64 and ends by the end of the block of the last 64-bit position, and data is that stretch of the sparse byte array |
| `FileRange.RangesConcat` | src/file.rs:126-164 | two adjacent ranges read as a and b if and only if their union reads as a + b and one is empty or the second starts below 2^64 |
| `FileRange.ObjectBytes` | src/file.rs:126-164 | on the raw dnode: byte pos of any range that reads is byte pos modulo 512 times the sectors of the block of that quotient, and exactly which ranges read |
| `FileRange.UnionReadsPartsDoNot` | src/file.rs:143-161 | with 1536-byte blocks the last 64-bit byte and the next read together and not apart |
| `FileRange.FillRange` | src/file.rs:134-163 | the loop, in place in a zeroed buffer, is the range function, and asks the walk only for ids below 2^55 |
| `FileRange.ReadDnodeRange` | src/file.rs:126-164 | the range over the blocks of the walk, all errors included |
| `FileRange.FetchBlock` | src/file.rs:151-151 | one call of the walk, whose bound on the id is met |
| `FileRange.Fill` | src/file.rs:150-161 | a chunk is copied, a hole leaves zeros, a short block is refused |
| `FileReader.WindowsAreStretch` | src/lib.rs:339-371 | windows that read give the stretch they cover up to the end of the file |
| `FileReader.WindowsAreFile` | src/lib.rs:307-371 | covering windows give what the whole read gives when that succeeds; windows that succeed are the whole read if and only if the file is at most 256 MiB and not empty without a block size |
| `FileReader.FileIs` | src/lib.rs:307-337 | exactly what a file reads as, on the raw dnode, up to 256 MiB |
| `FileReader.WindowIs` | src/lib.rs:339-371 | and a window, cut to the end of the file |
| `FileReader.EmptyFileOnlyInWindows` | src/lib.rs:339-354 | the empty file of an object without a block size reads in windows, whatever they are, and not whole |
| `FileReader.LargeFileOnlyInWindows` | src/lib.rs:307-371 | a file of one hole, a byte over the limit, reads in two windows and not whole |
| `PoolStore.SlotDecodes` | src/file.rs:93-108 | each slot of an indirect block as written decodes to its pointer |
| `PoolStore.WrittenNode` | src/file.rs:87-115 | the tree under an indirect block that reads back as written is the node of its pointers' trees |
| `BitFields.Unpacks` | src/phys/block_pointer.rs:1224-1240 | for any layout of disjoint fields every field of a packed word comes back |
| `BitFields.Repacks` | src/phys/block_pointer.rs:1117-1240 | a word packed again from contiguous fields is the word |
| `BitFields.FieldIsMask` | src/phys/block_pointer.rs:1117-1142 | a shift and a mask read a field |
| `BitFields.BitIsField` | src/phys/block_pointer.rs:1094-1095 | testing a flag bit reads a one-bit field |
| `PointerCodec.EncodeDva` | src/phys/dva.rs:209-273 | an address encodes exactly when vdev, size and offset are in range |
| `PointerCodec.DvaRoundTrip` | src/phys/dva.rs:165-273 | an address that encodes, or none, decodes to itself |
| `PointerCodec.DvaBack` | src/phys/dva.rs:165-252 | the two words of an address encode again to themselves exactly when there is no address or its size is not 0 |
| `PointerCodec.PropsRoundTrip` | src/phys/block_pointer.rs:1090-1242 | the flags word gives back sizes, types, level and flags |
| `PointerCodec.KindBits` | src/phys/block_pointer.rs:97-119 | the embedded and encrypted bits tell the kinds apart |
| `PointerCodec.RegularRoundTrip` | src/phys/block_pointer.rs:1077-1262 | a regular pointer's sixteen words decode to it |
| `PointerCodec.EncryptedRoundTrip` | src/phys/block_pointer.rs:716-928 | an encrypted pointer's sixteen words decode to it |
| `PointerCodec.WordsOfFlat` | src/phys/block_pointer.rs:81-164 | words as bytes in either order come back |
| `PointerBytes.ZeroRegular` | src/phys/block_pointer.rs:85-87 | one regular pointer and no other encodes to all zeros |
| `PointerBytes.RoundTrip` | src/phys/block_pointer.rs:81-164 | every pointer that encodes decodes to itself but for the all-zero one, which is a hole |
| `PointerBytes.ReEncodes` | src/phys/block_pointer.rs:81-164 | the bytes of a pointer encode again to themselves if and only if it is not embedded, flag bits 37 and 38 are clear and no address has size 0; a hole's always do |
| `PointerBytes.WhatEncodes` | src/phys/block_pointer.rs:1190-1218 | addresses encode exactly when each is in range |
| `PointerBytes.FromDecoder` | src/phys/block_pointer.rs:81-121 | peeking at the flags and rewinding decodes the next 128 bytes and moves past them |
| `PointerBytes.ToEncoder` | src/phys/block_pointer.rs:127-164 | writes the 128 bytes of the encoding exactly when the pointer encodes and there is room; embedded pointers are refused |
| `PointerFormat.RegularIs` | src/phys/block_pointer.rs:1077-1180 | which 128 bytes are a regular pointer, and each field as a quotient and remainder of its word |
| `PointerFormat.EncryptedIs` | src/phys/block_pointer.rs:716-830 | the same for an encrypted pointer |
| `PointerFormat.EmbeddedIs` | src/phys/block_pointer.rs:390-480 | the same for an embedded one: sizes stored less one, the payload around the two words |
| `PointerFormat.DvaIs` | src/phys/dva.rs:165-201 | an address decodes exactly with grid and padding clear, its fields in plain numbers |
| `PointerFormat.PropsAre` | src/phys/block_pointer.rs:1090-1142 | the flags word decodes exactly with known type, checksum and compression, its fields in plain numbers |
| `Endian.ByteOfValue` | src/phys/binary.rs:1080-1104 | byte i is the digit of its place in base 256, high first or low first |
| `Cursors.Decoder.Clamped` | src/phys/binary.rs:408-427 | refused exactly when the window is not in the data |
| `Cursors.Decoder.Rewind` | src/phys/binary.rs:464-477 | moves back or refuses; min <= offset <= max <= length is kept |
| `Cursors.Decoder.Seek` | src/phys/binary.rs:479-504 | moves exactly to targets in the window |
| `Cursors.Decoder.Skip` | src/phys/binary.rs:506-510 | moves on exactly when enough is left |
| `Cursors.Decoder.Get` | src/phys/binary.rs:613-627 | the next bytes, or nothing and no movement |
| `Cursors.Decoder.SkipZeros` | src/phys/binary.rs:512-523 | succeeds exactly on zeros; the cursor is past them either way |
| `Cursors.Decoder.IsSkipZeros` | src/phys/binary.rs:525-539 | moves only past zeros |
| `Cursors.Encoder.Put` | src/phys/binary.rs:1869-1882 | all the bytes or none; nothing beyond them changes |
| `Cursors.Encoder.PutZeros` | src/phys/binary.rs:1808-1819 | the same for zeros |
| `Xdr.ItemRoundTrip` | src/phys/binary.rs:1402-1620 | one put and the matching get, for every kind of item and any bytes after it |
| `Xdr.RoundTrip` | src/phys/binary.rs:2491-2628 | any sequence of puts is recovered by the matching gets, using exactly the bytes written, a multiple of four |
| `Xdr.NumberBack` | src/phys/binary.rs:2583-2615 | sign extension above 127 and the signed forms come back |
| `Xdr.U8Forms` | src/phys/binary.rs:1587-1600 | which words decode as a byte, and which of them a put writes |
| `XdrFormat.PutIs` | src/phys/binary.rs:2491-2628 | the bytes of each kind of item in plain numbers |
| `XdrFormat.GetNumberIs` | src/phys/binary.rs:1512-1619 | which four bytes a get of a number takes, and as what |
| `XdrFormat.GetLongIs` | src/phys/binary.rs:1512-1619 | eight bytes, in two's complement when signed |
| `XdrFormat.GetBytesIs` | src/phys/binary.rs:1404-1456 | bytes and strings: length, zero padding and UTF-8, both ways |
| `Xdr.GetAlignedUnlessCut` | src/phys/binary.rs:1404-1619 | a get, failed or not, leaves the cursor off a multiple of four if and only if the input ends inside its padding |
| `Xdr.StaysAligned` | src/phys/binary.rs:1512-1619 | on input of a multiple of four bytes a get, failed or not, moves by a multiple of four |
| `XdrRuns.AlwaysAligned` | src/phys/binary.rs:1402-1619 | over every run of gets, rewinds, seeks and skips the cursor stays a multiple of four from its start if and only if the window is whole words and starts on one, or is empty |
| `XdrRuns.Perform` | src/phys/binary.rs:1458-1619 | each operation of the decoder moves the cursor as the run says |
| `Xdr.Put` | src/phys/binary.rs:2549-2623 | writes the encoding exactly when there is one and it fits |
| `Xdr.Get` | src/phys/binary.rs:1512-1619 | returns and moves as specified, also on failure |
| `Datasets.EnumerateSound` | src/lib.rs:195-217 | for any listing, at most 256 paths of at most 16 names, root first, each other path a listed child of an earlier one |
| `Datasets.EnumerateFull` | src/lib.rs:195-217 | for any listing, 256 paths are listed or every listed path of fewer than 16 names has all its children listed |
| `Datasets.EnumerateComplete` | src/lib.rs:195-217 | listings good, siblings distinct and limits kept: exactly the datasets, each once |
| `DatasetOrder.RunLevels` | src/lib.rs:195-217 | from the stack of one level the run goes on level by level exactly when no level from there has two paths with children |
| `DatasetOrder.BreadthFirstWhenThin` | src/lib.rs:189-217 | within the limits the order is breadth-first if and only if no two datasets of the same depth both have children |
| `DatasetOrder.FifoIsBreadthFirst` | src/lib.rs:189-194 | the same run with a queue lists level by level |
| `DatasetOrder.StackIsQueueWhenThin` | src/lib.rs:189-217 | the run equals the one with a queue under the same condition and no other |
| `DatasetOrder.NotBreadthFirst` | src/lib.rs:197-214 | with children a and b of the root, a/c and b/d, the code lists b/d before a/c |
| `Datasets.ListDatasets` | src/lib.rs:195-217 | the loops over the stack are the enumeration |
| `Datasets.PushChildren` | src/lib.rs:206-214 | children are pushed in order until the limit |
| `ZapChunks.CollectChunks` | src/walk.rs:337-371 | the loop is the specified collection, with the number of chunks read |
| `ZapChunks.ChunkIs` | src/phys/zap.rs:2454-2530 | a chunk on the raw bytes: 24 of them, 251 first, 21 of data, two for the next, 65535 for none |
| `ZapChunks.Bounded` | src/walk.rs:354-370 | on any leaf at most one chunk more than there are is read, and never more bytes than asked |
| `ZapChunks.CollectsChain` | src/walk.rs:355-370 | a chain that is long enough or ends gives its first bytes in order |
| `ZapChunks.DistinctChain` | src/walk.rs:337-371 | distinct chunks holding enough give exactly the first `length` bytes |

## Left out

- SIMD implementations and the eight-lane Fletcher finish: not compiled in this crate.
- LZ4, gzip, zstd, ZLE, SHA-512/256 and BLAKE3: adapters or small codecs, parameters of the block reader and of `BlockVerify`.
- Lzjb.LzjbEncoder.Compress: success is stated through the room at each group start; `LzjbBounds.AlwaysFits` gives a bound a caller can check, one way only.
- Sha256Digest.Digest: messages of 2^61 bytes and more, whose bit length overflows 64 bits.
- BlockVerify.Compute: the same bound.
- BlockVerify.VerifyBlock: the same bound.
- RaidzMap.RaidzColumns: more than 2^63 children, or sizes within 128 KiB of 2^64, where a 64-bit sum overflows.
- IndirectTree.ReadDnodeBlock: block ids from 2^55 up, where a slot offset can overflow; `FileRange.FillRange` passes none.
- Which error a failed pointer, XDR or cursor operation returns, and the algorithm name in a checksum error; and where a failed pointer decode leaves the cursor.
- Encoding of dnodes, object sets and DSL directories; endian strings; floating-point values.
- Directory, nvlist, uberblock, label, ZAP header, micro-ZAP and dnode decoders, `collect_leaf` and the large-dnode path of `read_object`.
- Pool import, feature checks, dataset path resolution and opening a file: a file is given as its blocks and its size.
- Error display, name tables, examples and fuzz targets: formatting only.
