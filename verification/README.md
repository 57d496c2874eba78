# Verification of the flashing tools

This project models the parts of ofgwrite that must not lose data and proves what they promise:

- the erasure code of `lib/libfec.c` (`Gf256`, `LinearAlgebra`, `Elimination`, `Polynomials`, `Vandermonde`,
  `ErasureCode`, `FecTables`, `FecMatrix`, `GaussJordan`, `VandermondeInversion`, `Shuffling`, `Fec`, `FecCodec`):
  any k packets with distinct indices give back the k source packets;
- the checksum of `lib/libcrc32.c` (`Crc32`, `BurstWindows`): the table-driven loop is polynomial division, and which
  bursts of damage are noticed;
- the writer of `nandwrite.c` (`NandWrite`): whatever blocks are bad and whatever writes fail, the good blocks hold the
  padded input in order;
- UBI scanning, flashing and formatting of `libscan.c`, `libubigen.c` and `ubiformat.c` (`UbiMedia`, `UbiDamage`,
  `UbiScan`, `UbiGen`, `LayoutHeaders`, `UbiFormat`): image placement around bad blocks, erase counters, and what the next scan finds;
- the DOS partition editor of `busybox/fdisk.c` (`DosTable`, `LogicalChain`, `Allocation`, `Fdisk`): the chain of logical
  partitions on disk and in memory, and where a new partition may end up.

`Flash` is the device that the flash tools share: eraseblocks with a bad flag, and operations that may fail and then leave
anything behind. It keeps a record of every operation that the driver has refused, so that the tools can be shown to give
up only when they have to. `Files` is a regular file whose reads may be short, interrupted or fail. `Division`, `Octets`
and `Wrappers` are helpers.

Arrays that the source fills in place are arrays here, and objects whose fields it updates are classes. Numbers are
unbounded unless a member says otherwise; sector numbers wrap at 32 bits (`DosTable.Wrap`), checksums and field
elements are bit vectors, and conversions to `int` or to a byte are written out.

## What the proofs found

- `invert_vdm` (lib/libfec.c:553-607) is right if and only if there are at most two points or one of the first two
  points is zero; `fec_new` makes the first one zero (`Vandermonde.StoredIsInverse`).
- The test `ipiv[ix] > 1` of `invert_mat` (lib/libfec.c:458-461) never fires.
- `nandwrite` reports a partial write if and only if an operation has failed for good, the file ends early, or the blocks
  that are not bad are too few (`NandWrite.NandWriter.Run`). The latter are counted for at least one page: even for an
  empty file the program wants a block that is not bad (`NandWrite.Needed`).
- The checksum of a UBI header is stored most significant byte first while it is computed least significant bit first,
  so that not every burst of 32 bits is noticed. Damage goes unnoticed exactly when the change of the stored checksum is
  the remainder of the change of the bits (`UbiDamage.UnnoticedExactly`). A window of 32 bits lets some damage through,
  the same in every header, if and only if 1, 2, 12 to 17, 20 to 22, 26, 27 or 29 to 31 of its bits lie in front of the
  checksum (`UbiDamage.BurstsNoticed`, and `UbiScan.BurstsScanned` for the scan). Every burst of at most 30 bits is
  noticed wherever it lies (`UbiDamage.ShortBurstsNoticed`), and one of 31 bits is not (`UbiDamage.LongerBurstMissed`).
- `ubiformat -O` accepts offsets of the volume header from 8 to 56, and the offset on the flash is taken over unchecked, so
  that the volume header may overwrite part of the erase counter header. A scan finds the eraseblocks of the layout
  volume if and only if what is left is a valid header (`UbiFormat.FormatThenScan`). In front of 20 it never is; up to
  48 it never is in both when they have the same counter, as on a device that was blank (`UbiFormat.OverlapNeverFound`);
  up to 60 it is for at most one counter (`LayoutHeaders.OneCounter`).
- `mtd_read` does not advance its buffer after a short read (lib/libmtd.c:1077-1082), and the buffer then ends up with
  bytes from further behind. It holds what was asked for, whatever the device holds, if and only if the first read
  delivers all of it (`Flash.OverlaidRight`).
- `flash_image` reports that it ran out of eraseblocks only by a result that exceeds their number, which its caller does
  not look at (ubiformat.c:550-557 and 931-938); `UbiFormat.Formatter.FlashAndFormat` states both outcomes.
- An eraseblock whose counter is the largest one is given a counter that is too large, and the next scan of the device
  fails because of it (`UbiFormat.CounterOverflow`).
- `add_partition` takes the start that it has proposed without looking at it again. In units of sectors or of cylinders,
  answers in range place a new primary partition over an existing one if and only if some partition in reach ends right
  before one that comes earlier in the table and, if that one is the extended partition, nothing inside leads out of it
  to a free place (`Allocation.Layout.OverlapsExactly`). With the primary partitions in the order of the disk it never
  happens, even if they overlap each other (`Allocation.Layout.OrderedSteady`, `Fdisk.Editor.OrderedApart`). In any
  layout, with gaps and tables, it happens if and only if a single answer can go astray
  (`Allocation.Layout.OneAnswerDecides`); a logical partition can even be placed on the table sector of another one
  (`Allocation.OntoTable`).
  How much has to be tried is bounded: in any layout, some answers lead to a taken place if and only if one of the
  answers at an edge does, at most two for each partition and two for each table (`Allocation.Layout.EdgesDecide`).
  `Allocation.BehindLater` is a table with two partitions on which it happens.
- With a gap of one sector, `add_logical` moves a partition whose table would lie at the very start of the extended
  partition, and does not look whether the new place is free (`Allocation.MovedInside`); the partition is apart from the
  others exactly if that place is (`Fdisk.Editor.AddLogical`).
- `add_logical` puts the table of a new partition a fixed distance before it, without looking whether another table is
  there already, and then two logical partitions share one sector; the chain stays well-formed exactly when there is
  none (`Fdisk.Editor.AddLogical`). It happens with the start that is proposed, although no answer goes astray
  (`Allocation.DefaultOnTable`). Some answers lead to it if and only if the start that is proposed, or what becomes of a
  single answer behind it, lies one gap behind another table that is not at the start of the extended partition, or
  lies one gap behind that start while the sector after it is a table (`Allocation.Layout.TableTakenExactly`).
- A partition entry without a single sector that begins at sector 0 counts as the whole disk when a partition is added
  (`Fdisk.Editor.EmptyBounds`).
- `read_extended` never ends when it meets an empty link while the geometry is not known, because `delete_partition`
  then does nothing (busybox/fdisk.c:1226-1239 and 1737-1738): `Fdisk.Editor.RemoveOne` leaves the whole table as it is,
  and the loop ends if and only if the geometry is known or no link is empty (`LogicalChain.RemovalEnds`; `LogicalChain.EmptyFirstEnds` shows such a disk).

## Model

| member | source | states |
|---|---|---|
| Gf256.Primitive | lib/libfec.c:118-140 | the polynomial for eight bits is primitive: alpha to the 255 is one, and no smaller positive power is |
| Gf256.PowOnto | lib/libfec.c:152-155 | every non-zero element is a power of alpha with an exponent below 255, so the logarithm table has no holes |
| Gf256.MulDistrib | lib/libfec.c:183-202 | multiplication by logarithms distributes over addition, which is exclusive or |
| Gf256.MulAssoc | lib/libfec.c:183-202 | multiplication by logarithms is associative |
| Gf256.MulInv | lib/libfec.c:302-310 | the inverse of a non-zero element multiplies with it to one |
| Gf256.MulIsPolynomialProduct | lib/libfec.c:186-198 | multiplication by logarithms is multiplication of polynomials modulo the field polynomial, done bit by bit |
| FecTables.ModNN | lib/libfec.c:161-169 | the shift-and-mask loop gives the remainder by 255 of every number it is applied to |
| FecTables.GeneratePowers | lib/libfec.c:257-293 | the loops fill the exponential table with the powers of alpha and the logarithm table with their exponents |
| FecTables.GenerateGf | lib/libfec.c:250-311 | after generate_gf the exponential, logarithm and inverse tables hold the field's powers, logarithms and inverses |
| FecTables.Tables.constructor | lib/libfec.c:610-622 | init_fec leaves all tables complete |
| FecTables.Tables.InitMulTable | lib/libfec.c:193-202 | the multiplication table holds the products of the field, including the rows for zero |
| FecMatrix.AddMul1 | lib/libfec.c:330-366 | the unrolled loop and its tail add a multiple of one slice to another, also inside one buffer, and touch nothing else |
| FecMatrix.AddMul | lib/libfec.c:326-327 | skipping a factor of zero makes no difference |
| FecMatrix.MatMul | lib/libfec.c:371-386 | the three loops compute the matrix product |
| LinearAlgebra.DotAssoc | lib/libfec.c:371-386 | multiplying by a product of matrices is multiplying by one after the other |
| LinearAlgebra.Exchange | lib/libfec.c:489-516 | one pivot step on an in-place matrix exchanges an unknown with a right-hand side: the solutions are the same ones |
| Elimination.PartialPivot | lib/libfec.c:470-518 | a pivot step keeps the half-inverted matrix equivalent to the original one |
| Elimination.PartialSwap | lib/libfec.c:471-480 | so does swapping two rows that are not pivots yet |
| Elimination.Stuck | lib/libfec.c:448-468 | when no pivot is left, the matrix is singular |
| Elimination.Unscramble | lib/libfec.c:519-530 | swapping a pair of columns undoes the row swap that was recorded for it |
| GaussJordan.FindPivot | lib/libfec.c:442-469 | a pivot that is found is non-zero, in an unused row and column; without one, all unused entries are zero; ipiv never exceeds one |
| GaussJordan.SwapRows | lib/libfec.c:471-480 | the two rows change places, cell by cell, and nothing else changes |
| GaussJordan.ScalePivot | lib/libfec.c:483-499 | the pivot row is divided by its pivot, whose cell ends up as the inverse |
| GaussJordan.EliminateRows | lib/libfec.c:507-517 | the sweep over all other rows, and that skipping it for a unit pivot row changes nothing |
| GaussJordan.ReduceColumn | lib/libfec.c:436-518 | one round of the main loop keeps the half-inverted matrix equivalent to the original, or proves it singular |
| GaussJordan.UnscrambleColumns | lib/libfec.c:519-530 | undoing the recorded row swaps as column swaps, last first, leaves the inverse |
| GaussJordan.InvertMat | lib/libfec.c:415-539 | the result is 0 if and only if the matrix is non-singular, and then the buffer holds its two-sided inverse |
| Polynomials.Division | lib/libfec.c:589-599 | synthetic division by x - r: the value is the quotient times x - r plus the value at r |
| Polynomials.Roots | lib/libfec.c:541-552 | a polynomial with as many distinct roots as coefficients is zero |
| Polynomials.ProductRoots | lib/libfec.c:562-587 | the product polynomial vanishes at each of its points |
| Vandermonde.MatrixNonsingular | lib/libfec.c:541-552 | the Vandermonde matrix of distinct points is non-singular |
| Vandermonde.LagrangeBasis | lib/libfec.c:589-602 | the column for a point is one at that point and zero at the others, and the divisor t is never zero |
| Vandermonde.StoredIsInverse | lib/libfec.c:553-607 | exactly when what invert_vdm stores is the inverse: at most two points, or one of the first two is zero |
| VandermondeInversion.Coefficients | lib/libfec.c:581-587 | the loop leaves in c the product polynomial, but for the constant coefficient that it never touches |
| VandermondeInversion.Divide | lib/libfec.c:593-599 | b is the synthetic quotient and t its value at the point |
| VandermondeInversion.StoreInverse | lib/libfec.c:589-602 | the loop over the points stores, column by column, exactly the matrix that Vandermonde.Stored describes |
| VandermondeInversion.InvertVdm | lib/libfec.c:553-607 | a Vandermonde matrix of distinct points, the first of which is zero, is replaced by its inverse |
| ErasureCode.PointsDistinct | lib/libfec.c:681-687 | the points of the Vandermonde matrix, zero and the powers of alpha, are distinct for up to 256 rows |
| ErasureCode.AnyRowsIndependent | lib/libfec.c:677-702 | k rows of the encoding matrix are independent if and only if they are different rows |
| ErasureCode.Systematic | lib/libfec.c:726-727 | a packet below k is the source packet itself, as the identity at the top of the encoding matrix demands |
| ErasureCode.EncoderRow | lib/libfec.c:689-702 | each row of the encoding matrix, those of the identity included, is the Vandermonde row multiplied by the inverse that is stored |
| Fec.FillPowers | lib/libfec.c:677-687 | the loops write the Vandermonde matrix, with a special first row |
| Fec.WriteIdentity | lib/libfec.c:700-702 | the top of the encoding matrix becomes the identity, and the rows below it stay |
| Fec.BuildEncoder | lib/libfec.c:695-702 | inverting the top, multiplying out the rest and writing the identity gives the systematic encoder |
| Fec.FecNew | lib/libfec.c:655-710 | a code comes out exactly for parameters in range, and its matrix is the encoder |
| Shuffling.Shuffle | lib/libfec.c:760-793 | the loop ends; every index keeps its packet; the result is 0 exactly when no index below k occurs twice, and then each sits at its own place |
| FecCodec.FecEncode | lib/libfec.c:717-736 | the packet that is produced is the row of the encoding matrix applied to the sources; an invalid index changes nothing |
| FecCodec.Combine | lib/libfec.c:729-732 | adding up multiples of the sources gives the row of coefficients times the sources |
| FecCodec.BuildDecodeMatrix | lib/libfec.c:800-830 | a matrix comes out if and only if the indices are in range and the rows are independent, and it is the inverse of those rows |
| FecCodec.DecodedIsSource | lib/libfec.c:859-879 | what the inverse matrix makes of the received packets is the source |
| FecCodec.DecodeShuffled | lib/libfec.c:855-883 | decoding into new buffers first and copying afterwards, for packets in their places |
| FecCodec.SourceUnique | lib/libfec.c:832-884 | packets with k distinct indices determine their sources |
| FecCodec.FecDecode | lib/libfec.c:843-884 | the result is 0 if and only if all indices are in range and distinct, and then the buffers hold the one source that the packets were made from, in order |
| Crc32.TableIsDivision | lib/libcrc32.c:42-95 | each of the 256 table entries is eight steps of division of its index |
| Crc32.UpdateIsFeed | lib/libcrc32.c:102 | one table lookup feeds the eight bits of a byte, least significant first |
| Crc32.MtdCrc32 | lib/libcrc32.c:97-104 | the loop is bit-at-a-time division by the reflected polynomial, as in section 8 of RFC 1952 without the inversions, for every seed and length |
| Crc32.CrcConcat | lib/libcrc32.c:97-104 | the checksum of a concatenation is that of the second part, seeded by that of the first |
| Crc32.BurstDetected | lib/libcrc32.c:97-104 | messages of equal length that differ only inside a window of 32 bits have different checksums |
| Crc32.PartDetected | lib/libcrc32.c:97-104 | so do messages that differ in up to four neighbouring bytes |
| BurstWindows.LetsThrough | libubigen.c:139-140 | for each of the blind windows, fixed damage that fits in it and changes the stored checksum as it changes the computed one |
| BurstWindows.StopsAll | libubigen.c:139-140 | no other window has such damage |
| BurstWindows.StopsBoth | libubigen.c:139-140 | nor has any window of 30 bits, where three blind ones overlap |
| Flash.Device.IsBad | lib/libmtd.c:1010-1027 | the query fails outside of the device, and otherwise fails or tells the flag |
| Flash.Device.MarkBad | lib/libmtd.c:1029-1048 | marking needs a device that allows it and a block that exists; when it fails, nothing is marked |
| Flash.Device.Erase | lib/libmtd.c:849-894 | a block is erased completely or left in an unknown state, and no other block changes; a block that does not exist is an error |
| Flash.Device.Read | lib/libmtd.c:1050-1084 | a read inside of the device leaves in the buffer what reads of these sizes, each into its beginning, leave there; if one read delivers everything, that is what was asked for |
| Flash.OverlaidRight | lib/libmtd.c:1077-1082 | the buffer holds what was asked for, whatever the device holds, if and only if one read delivers all of it |
| Flash.ReadOn | lib/libmtd.c:1077-1082 | the loop over short reads, with the buffer that it leaves |
| Flash.Device.Write | lib/libmtd.c:1120-1191 | bounds and alignment are checked, writing can only clear bits, and a failure touches one block only |
| Flash.Device.Torture | lib/libmtd.c:954-1008 | the torture test fails whether or not the block passes it, and touches no other block |
| Flash.ProgrammedErased | lib/libmtd.c:1120-1191 | writing into erased cells stores the data |
| Files.ReadAll | ubiformat.c:349-365 | either exactly the bytes asked for are read, over any number of short reads, or the result is -1, as it is when the file is too short |
| NandWrite.EnterFresh | nandwrite.c:398-410 | entering a block after a full one empties the buffer |
| NandWrite.EnterRewound | nandwrite.c:402-406 | entering a block after a rewind keeps the buffer to be replayed |
| NandWrite.EnterBad | nandwrite.c:421-446 | skipping a bad block loses nothing |
| NandWrite.PageRead | nandwrite.c:449-498 | reading a page, padded at the end of the input, keeps the buffer equal to what is still missing on the device |
| NandWrite.PageWritten | nandwrite.c:578-579 | a page that was written inside a block moves on by one page on both sides |
| NandWrite.BlockWritten | nandwrite.c:578-579 | so does the last page of a block, after which the block counts as good |
| NandWrite.BlockAbandoned | nandwrite.c:545-577 | giving a block up rewinds so that what the device and the buffer hold together is unchanged |
| NandWrite.Finished | nandwrite.c:388-389 | when nothing is left in the buffer, the device holds the input so far |
| NandWrite.NandWriter.EraseBuffer | nandwrite.c:223-229 | exactly the given part of the buffer is filled with 0xFF |
| NandWrite.NandWriter.TryBlock | nandwrite.c:398-446 | one round of the inner loop either settles on a block or moves on behind a bad one; it ends the program only if the query is refused or the blocks have run out |
| NandWrite.NandWriter.StartBlock | nandwrite.c:398-410 | arriving at a block, the buffer is either kept for replay or emptied, and in step with the device |
| NandWrite.NandWriter.EnterBlock | nandwrite.c:390-446 | the inner loop ends on a block that is not bad, with the buffer in step with the device; otherwise a query was refused or there is no block left |
| NandWrite.NandWriter.ReadUpTo | nandwrite.c:455-464 | short reads add up to a page or to the end of the input |
| NandWrite.NandWriter.FillPage | nandwrite.c:448-498 | a page is ready, the input has ended, or a read was refused or interrupted, and nothing is read that is not needed; buffer, cursor and length stay in step |
| NandWrite.NandWriter.GiveUp | nandwrite.c:545-577 | after an I/O error an erase is tried, whose own I/O errors are ignored; the program goes on exactly if the device lets the block be marked bad and nothing else fails, and then the block is marked, no other mark changes, no other block changes, and the buffer is to be written again behind it |
| NandWrite.NandWriter.WriteOut | nandwrite.c:537-579 | the device offset grows, bad blocks are never touched, the invariant of the loop is kept, whatever fails, and the program gives up exactly on a failure that is not to be survived; a block is marked bad only after its write has failed |
| NandWrite.NandWriter.Run | nandwrite.c:355-596 | unless the program reports a partial write, the good blocks in order hold exactly the input padded with 0xFF to a page, for every pattern of bad blocks and failures; it reports one if and only if an operation has failed for good, the file has ended early, or the blocks that are not bad are too few; without failures no block becomes bad |
| NandWrite.NandWriter.WriteAll | nandwrite.c:381-583 | the loop ends at the end of the input, with nothing left to write, behind the last block, or for a reason that makes the write a partial one |
| NandWrite.OutOfRoom | nandwrite.c:381-434 | behind the last block with something left to write, the good blocks are fewer than the file needs |
| NandWrite.EnoughRoom | nandwrite.c:590-591 | when everything is written, they were enough |
| UbiMedia.NumberOfBigEndian | include/mtd/ubi-media.h:157-167 | a number that fits reads back from its big-endian bytes |
| UbiMedia.BigEndianOfNumber | include/mtd/ubi-media.h:157-167 | bytes come back from the number they stand for |
| UbiMedia.EcHdrReadsBack | libubigen.c:125-141 | an erase counter header that was built is valid and reads back with its version and all its values, and its other bytes are zero |
| UbiMedia.VidHdrReadsBack | libubigen.c:143-169 | so is a volume identifier header; for a static volume it also covers the data |
| UbiMedia.RestampKeeps | ubiformat.c:284-305 | re-stamping a valid header gives a valid header in which only the ec, image_seq and hdr_crc fields differ |
| UbiMedia.RestampTwice | ubiformat.c:284-305 | a header that is stamped again after a failed write is as if stamped once |
| UbiMedia.RestampFresh | ubiformat.c:299-302 | re-stamping a freshly built header is building it with the new values |
| UbiDamage.UnnoticedExactly | libscan.c:116-127 | any damage to a valid header goes unnoticed if and only if the change of the stored checksum is the remainder of the changed bits |
| UbiDamage.BurstInBody | libscan.c:116-127 | a burst of at most 32 bits in the bytes under the checksum makes a valid header invalid |
| UbiDamage.DamagedChecksum | libscan.c:116-127 | so does any damage to the checksum alone |
| UbiDamage.BurstsNoticed | libscan.c:116-127 | for every valid header and every window of 32 bits in it: all bursts in the window are noticed if and only if it is not one of the blind ones |
| UbiDamage.ShortBurstsNoticed | libscan.c:116-127 | every burst of at most 30 bits is noticed, wherever it lies |
| UbiDamage.LongerBurstMissed | libscan.c:116-127 | in every valid header one burst of 31 bits is not |
| UbiGen.UbigenInfo.constructor | libubigen.c:40-64 | the offsets are the least aligned ones, and the largest volume table that fits is taken, up to 128 records |
| Division.RoundUpLeast | libubigen.c:44-54 | rounding up as the program does gives the least multiple that is not smaller |
| UbiGen.InitEcHdr | libubigen.c:125-141 | the header is built at the start of the buffer, and the rest of it stays |
| UbiGen.InitVidHdr | libubigen.c:143-169 | the header is built at an offset, and the rest of the buffer stays |
| UbiGen.CreateEmptyVtbl | libubigen.c:66-84 | the table consists of as many empty records as there is room for |
| UbiGen.RecordsSealed | libubigen.c:66-84 | every record of that table is empty and has a valid checksum |
| UbiGen.LayoutBlockReads | libubigen.c:275-305 | a layout block holds its volume header and its table where the first header says, as much of the first header as the second leaves, and erased bytes everywhere else |
| UbiGen.BuiltFor | libubigen.c:125-169 | both headers carry the version, cut down to a byte, and the first one the offsets and the image sequence number that were asked for |
| UbiGen.WriteLayoutVol | libubigen.c:250-315 | on success the two copies of the volume table, with their own counters and numbers, are programmed into the two blocks, and nothing of the first is left in the second; it fails if and only if a write is refused |
| LayoutHeaders.OverlapMisread | libubigen.c:275-305 | a volume header that starts before byte 20 spoils the magic number, the counter or the offset of the first header |
| LayoutHeaders.SameCounter | libubigen.c:275-305 | with the volume header at an offset up to 48, one counter never leaves both layout blocks a valid first header; behind 48, it leaves it to both or to none |
| LayoutHeaders.OneCounter | libubigen.c:275-305 | with the volume header at an offset up to 60, at most one counter of 32 bits leaves a layout block a valid first header |
| LayoutHeaders.ChecksumEnds | libubigen.c:275-305 | from 60 to 63, the first header stays valid if and only if its checksum ends with the bytes that the volume header starts with |
| UbiScan.AllFf | libscan.c:40-49 | true if and only if all bytes are erased |
| UbiScan.ScanInfo.ScanBlock | libscan.c:73-127 | the body of the loop classifies an eraseblock as the specification says of the header that was read, and counts it once; it fails only if a query or a read is refused or the header ends the scan |
| UbiScan.ScanInfo.CheckOffsets | libscan.c:138-186 | the first valid header decides the offsets; headers that differ, or a first one that is not aligned, count as corrupted |
| UbiScan.ScanInfo.Average | libscan.c:193-201 | the mean is the sum of the counters in the table over their number, without the marks |
| UbiScan.UbiScan | libscan.c:51-219 | a finished scan is the fold over all headers as they were read, and over the eraseblocks themselves if no read was short; every entry is what its header makes of it, each count is the number of its marks, they add up to the number of eraseblocks; the scan fails only if a query or a read is refused, or at a header that ends it |
| UbiScan.ScanFaithful | libscan.c:73-191 | bad eraseblocks and only those are marked bad, and OK ones have a valid header with that counter and the agreed offsets |
| UbiScan.ScanClassifies | libscan.c:104-186 | empty exactly for erased bytes, alien exactly for another magic number, corrupted exactly for a wrong checksum, other offsets than those of the first valid header, or a misaligned data offset in it, and otherwise the counter; and the offsets are those of that header |
| UbiScan.ScanEnds | libscan.c:100-137 | a scan fails exactly at an eraseblock without room for a header or with a valid header whose counter is too large |
| UbiScan.KindsPartition | libscan.c:73-203 | the five kinds of entry add up to the size of the table, because the marks exceed every counter |
| UbiScan.MeanBetween | libscan.c:193-201 | the mean lies between the least and the greatest counter |
| UbiScan.ScanFormatted | libscan.c:73-191 | a scan of a formatted device gives back exactly its counters if and only if none exceeds the largest one |
| UbiScan.BurstsScanned | libscan.c:73-191 | for an eraseblock that counts as OK: no burst in a window of 32 bits of its header leaves it OK if and only if the window is not one of the blind ones |
| UbiScan.DamagedNotOk | libscan.c:104-127 | an eraseblock whose header is damaged by a burst of at most 30 bits anywhere in it, checksum included, or of 32 bits in a window that is not blind, never counts as OK |
| UbiFormat.ChangeEch | ubiformat.c:284-305 | it succeeds if and only if the header is valid, and then the buffer is re-stamped; otherwise the buffer is left alone |
| UbiFormat.DropFfs | ubiformat.c:307-320 | for any length, the result is the least multiple of the unit that leaves only erased bytes behind it |
| UbiFormat.WriteDropped | ubiformat.c:526-529 | writing just that prefix to an erased block stores the whole buffer |
| UbiFormat.Formatter.ConsecutiveBadCheck | ubiformat.c:371-394 | it fails if and only if the last four marks were on consecutive blocks, over the whole history of calls |
| UbiFormat.TrailingRunExactly | ubiformat.c:371-394 | a run of k marks at the end means that each of the last k is one behind the one before it |
| UbiFormat.Formatter.MarkBad | ubiformat.c:397-425 | bad_cnt stays the number of entries marked bad, and the table stays in step with the device, whether it succeeds or not; it fails exactly if the user, the device or the driver refuses, or for four marks in a row |
| UbiFormat.Plan.StampAgain | ubiformat.c:542-548 | a buffer that is replayed after a failed write still holds its part of the image |
| UbiFormat.Formatter.ClearBlock | ubiformat.c:467-490 | a bad eraseblock, or one that cannot be erased, is passed over without losing the buffer; the program gives up exactly on trouble |
| UbiFormat.Formatter.LoadBuffer | ubiformat.c:492-519 | the buffer holds the next part of the image, read or kept, stamped with the counter for this eraseblock, unless reading fails or the part has no valid header |
| UbiFormat.Formatter.WriteBuffer | ubiformat.c:526-551 | the part of the image is stored, or the eraseblock is marked bad and the buffer is kept; the program gives up exactly on trouble |
| UbiFormat.Formatter.FlashBlock | ubiformat.c:456-551 | one round of the loop places the next part of the image, or passes over an eraseblock that is marked bad |
| UbiFormat.Formatter.FlashImage | ubiformat.c:427-562 | for a result up to the number of eraseblocks, the usable blocks below it hold all parts of the image in order, each once, with the image sequence number and with the counter from the option, one more than the old one, or the mean; one more means exactly that some did not fit; -1 needs a size that does not fit, a read that fails, a part without a valid header, or trouble with the device or the user |
| UbiFormat.Formatter.FormatBlock | ubiformat.c:594-664 | an eraseblock ends up bad, kept for the volume table, or with nothing but a header with the counter from the option, one more than the old one, or the mean; the program gives up exactly on trouble |
| UbiFormat.Formatter.WriteVolumeTable | ubiformat.c:670-688 | the two eraseblocks kept for it receive the layout volume with the counters chosen for them, or a write is refused |
| UbiFormat.Formatter.Format | ubiformat.c:564-696 | when it returns 0, every usable block from the start on has its header, with the offsets and with the counter from the option, one more than the old one, or the mean, and the two lowest ones hold the layout volume when there is one; blocks before the start are untouched; it returns -1 if and only if there is trouble with the device or the user, or fewer than two usable blocks for a volume table |
| UbiFormat.FormatThenScan | ubiformat.c:584-688 | for every offset of the volume header: a scan after formatting finds every usable block OK with exactly the counter chosen for it, if and only if no chosen counter exceeds the largest one and, with a volume table, the volume headers leave the headers of its blocks valid |
| UbiFormat.TableApart | ubiformat.c:777-785 | which they do for all offsets from 64 on |
| UbiFormat.OverlapNeverFound | ubiformat.c:777-785 | for offsets below 20 they never do, nor for offsets up to 48 when both blocks have the same counter |
| UbiFormat.CounterOverflow | ubiformat.c:597-602 | one eraseblock whose counter was the largest makes that scan fail |
| UbiFormat.Formatter.FlashAndFormat | ubiformat.c:931-938 | after both steps the image is in place and every usable block behind it has a header with its counter, or the image did not fit and success is reported all the same; what -1 needs |
| DosTable.ChsReadsBack | busybox/fdisk.c:1058-1066 | a packed cylinder address, in which cylinder bits are or-ed to the sector byte, reads back if and only if the cylinder is at most 1023, the head at most 255 and the sector at most 63 |
| DosTable.ClampedExactly | busybox/fdisk.c:1069-1078 | a sector on one of the first 1024 cylinders is left alone, and in DOS compatible mode any other becomes the last of these |
| DosTable.Linear2Chs | busybox/fdisk.c:1891-1900 | division by the size of a cylinder gives the same cylinder, head and sector as set_hsc takes off one by one |
| LogicalChain.DeleteLinked | busybox/fdisk.c:1760-1797 | deleting a logical partition keeps the chain well-formed |
| LogicalChain.DeleteKeeps | busybox/fdisk.c:1760-1797 | it takes exactly one partition out, and all others keep their place on the disk and their size |
| LogicalChain.RebasedAbsolute | busybox/fdisk.c:1775-1784 | moving a table sector to the start of the extended partition keeps the partition where it is, in 32-bit arithmetic |
| LogicalChain.DeleteMarks | busybox/fdisk.c:1727-1797 | every table sector that deleting modifies is marked as changed |
| LogicalChain.ExtendedLinked | busybox/fdisk.c:2455-2457 | a chain that grows by a table sector it does not use yet stays well-formed |
| LogicalChain.ExtendedLogicals | busybox/fdisk.c:2455-2457 | it holds the partitions from before and the new one |
| LogicalChain.FirstLogical | busybox/fdisk.c:2455-2457 | the first logical partition goes into the table sector of the extended partition itself |
| LogicalChain.TakenAgain | busybox/fdisk.c:1188-1219 | reading a sector of a well-formed chain finds the same two entries again |
| LogicalChain.TakenExactly | busybox/fdisk.c:1188-1219 | for every sector: the first entry with a partition and the first one with a link are taken, and without one the first entry that is left |
| LogicalChain.ChainFollows | busybox/fdisk.c:1166-1223 | for every disk: the table sectors that are read are those on the disk, each behind the link of the one before, up to one without a link or to the largest number |
| LogicalChain.ChainFails | busybox/fdisk.c:1166-1223 | a chain cannot be read if and only if it leads, in time, to a sector that cannot be read |
| LogicalChain.ReadBack | busybox/fdisk.c:1166-1223 | following the links of a stored well-formed chain gives back all of its partitions and nothing else |
| LogicalChain.ReadChainBack | busybox/fdisk.c:1149-1240 | so does all of read_extended, whose removal of empty links then does nothing |
| Fdisk.Editor.DeletePartition | busybox/fdisk.c:1726-1798 | the branches for primary, extended and logical partitions, the early return without a geometry included |
| Fdisk.Editor.DeleteLogical | busybox/fdisk.c:1760-1797 | the edits in place, shift included, do to the list of logical partitions what LogicalChain.DeleteAt describes |
| Fdisk.Editor.DeleteFromTable | busybox/fdisk.c:1726-1798 | a valid table stays valid, and all other logical partitions stay where they are |
| Fdisk.Editor.Locate | busybox/fdisk.c:1188-1219 | which of the four entries are taken for the partition and for the link, with the fallbacks when one is missing |
| Fdisk.Editor.TakeSector | busybox/fdisk.c:1183-1222 | a sector that was read becomes the next logical partition and gives the next link |
| Fdisk.Editor.CutOff | busybox/fdisk.c:1169-1181 | when there is no room for more partitions, the last link is cleared and marked, and everything else stays |
| Fdisk.Editor.FollowLinks | busybox/fdisk.c:1166-1223 | the loop reads the chain that the disk holds, up to sixty partitions, and ends also when the chain runs in circles |
| LogicalChain.RemovalEnds | busybox/fdisk.c:1225-1239 | the removal of empty links ends if and only if the geometry is known or there is none, and then gives the chain without them |
| LogicalChain.RemoveEmptyKeeps | busybox/fdisk.c:1225-1239 | removing the empty table sectors keeps the chain well-formed and leaves all partitions where they are |
| LogicalChain.FirstEmptyExactly | busybox/fdisk.c:1227-1232 | which table sectors count as empty |
| LogicalChain.EmptyFirstEnds | busybox/fdisk.c:1225-1239 | a disk with an empty first table sector, on which reading ends if and only if the geometry is known |
| Fdisk.Editor.RemoveOne | busybox/fdisk.c:1227-1238 | one round of the loop: it ends exactly without an empty link, and without a geometry the next round finds the same table |
| Fdisk.Editor.RemoveEmptyLinks | busybox/fdisk.c:1225-1239 | restarting after each removal leaves the chain without its empty sectors, with a geometry or with nothing to remove |
| Fdisk.Editor.ReadExtended | busybox/fdisk.c:1149-1240 | the logical partitions in memory are what the disk holds, or a sector cannot be read; for all tables on which it ends |
| Fdisk.Editor.WritePrimary | busybox/fdisk.c:2594-2603 | a change to any primary entry writes the first sector |
| Fdisk.Editor.WriteLogical | busybox/fdisk.c:2597-2603 | afterwards every table sector is on the disk as it is in memory |
| Fdisk.Editor.WriteTable | busybox/fdisk.c:2588-2604 | writing only the changed sectors leaves the whole table on the disk: the changed ones with their signature, as they were in memory, and all other sectors of the disk as they were |
| Fdisk.DeleteAndReopen | busybox/fdisk.c:1726-1798 | deleting, writing and reading again finds exactly the other logical partitions, where they were |
| Fdisk.Editor.FillBounds | busybox/fdisk.c:2363-2382 | the bounds of all partitions, with the extended one counted as a whole, from the starts of their first cylinders in these units |
| Fdisk.Editor.UnitIs | busybox/fdisk.c:1123-1131 | with a known geometry, the unit is a sector or the sectors of a cylinder |
| Fdisk.Editor.DescribedHolds | busybox/fdisk.c:1079-1101 | an entry that set_partition has made holds exactly the sectors from start to stop |
| Fdisk.Editor.BoundsExactly | busybox/fdisk.c:2230-2247 | the bounds of a partition, in 32 bits, hold exactly its sectors, those of the extended one included |
| Fdisk.Editor.EmptyBounds | busybox/fdisk.c:2230-2247 | an entry without a sector holds none, or all of the disk if it begins at sector 0 |
| Fdisk.Editor.GapBoundsExactly | busybox/fdisk.c:2391-2394 | for a logical partition they hold the gap behind it as well |
| Fdisk.Editor.ApartExactly | busybox/fdisk.c:2385-2457 | in units of sectors, being apart from the bounds and the tables is sharing no sector with a partition or a table |
| Allocation.FindStart | busybox/fdisk.c:2385-2415 | the loop ends for every user, and the start that comes out is the one that the answers given lead to, in units of sectors and of cylinders |
| Allocation.ReadStart | busybox/fdisk.c:2404-2413 | the start is that of the unit that was answered, or the proposed one if that is behind it, within the limit |
| Allocation.Layout.FreeIsFirst | busybox/fdisk.c:2385-2399 | the start that is proposed is not taken, and everything before it lies in a partition or at most a gap behind a table |
| Allocation.Layout.SettleCovers | busybox/fdisk.c:2385-2399 | an answer, too, is only moved over such sectors |
| Allocation.Layout.NarrowIsLast | busybox/fdisk.c:2426-2433 | the limit for the end is the last sector before the next partition or table |
| Allocation.Layout.AlwaysFree | busybox/fdisk.c:2385-2415 | whatever the answers are, the start lies outside of all partitions and on no table, if no single answer goes astray |
| Allocation.Layout.OneAnswerDecides | busybox/fdisk.c:2385-2415 | in every layout and unit, some answers lead into a partition or onto a table if and only if a single answer is moved there |
| Allocation.Layout.EdgesDecide | busybox/fdisk.c:2385-2415 | and if and only if this happens to the first possible answer, to the first behind the beginning or the end of a partition, or to one at or right behind a table |
| Allocation.Layout.EndsExactly | busybox/fdisk.c:2385-2415 | some answers lead to a given start if and only if it is the proposed one or becomes of a single answer behind it |
| Allocation.Layout.TableTakenExactly | busybox/fdisk.c:2417-2425 | some answers put the table of a new logical partition onto another one if and only if such a start lies one gap behind a table that is not at the very start of the extended partition, or the proposed one lies one gap behind that start and the next sector is a table |
| Allocation.Layout.MovedAlong | busybox/fdisk.c:2417-2425 | a partition moves along with its table only with a gap of one sector, from the proposed start, and only if that start is right behind the first sector and free |
| Allocation.Layout.OverlapsExactly | busybox/fdisk.c:2385-2415 | for a primary partition, with logical partitions or without: some answers lead to a place that is taken if and only if a partition in reach ends right before an earlier one, and that one is not an extended partition whose contents lead out of it to a free place |
| Allocation.Layout.OrderedSteady | busybox/fdisk.c:2385-2415 | with the primary partitions in order no answer goes astray, whether they overlap or not |
| Allocation.Layout.QuietSteady | busybox/fdisk.c:2385-2415 | nor does one if no partition and no table pushes a start into an earlier partition or onto a table |
| Allocation.OntoTable | busybox/fdisk.c:2385-2415 | two answers that lead a logical partition onto the table of another one |
| Allocation.DefaultOnTable | busybox/fdisk.c:2417-2425 | a layout in which no answer goes astray and the proposed start puts the new table onto another one |
| Allocation.BehindLater | busybox/fdisk.c:2385-2415 | two answers that place a primary partition into an existing one |
| Allocation.MovedInside | busybox/fdisk.c:2417-2425 | a free place that is corrected to one inside of a partition |
| Allocation.Layout.ClearIsApart | busybox/fdisk.c:2426-2457 | with an end below the narrowed limit, a partition is apart from all others and from all tables if and only if its first sector is |
| Fdisk.Editor.SetPartition | busybox/fdisk.c:1079-1101 | the entry is read back as reaching from start to stop, with the addresses of these sectors, clamped in DOS compatible mode; no other entry changes, and it is marked as changed |
| Fdisk.Editor.DescribesExactly | busybox/fdisk.c:1079-1101 | exactly the entry that set_partition makes is read that way |
| Fdisk.Editor.DosAddress | busybox/fdisk.c:1069-1078 | in DOS compatible mode the addresses always read back as the clamped sectors |
| Fdisk.Editor.ApartFromAll | busybox/fdisk.c:2380-2382 | being apart from the rounded bounds is sharing no sector with a partition, or for a logical one keeping the gap behind each |
| Fdisk.Editor.ReadEnd | busybox/fdisk.c:2441-2453 | the end is that of the answer, cut off at the limit, or the limit if there is only one to choose |
| Fdisk.Editor.ChoosePlace | busybox/fdisk.c:2364-2453 | the answers given lead to the start and to the end; a place is found exactly if it is within the limit, and is apart from all partitions and tables exactly if its first sector is, and always if no answer goes astray |
| Fdisk.Editor.StartChain | busybox/fdisk.c:2459-2471 | a new extended partition starts with a well-formed chain that holds no partition |
| Fdisk.Editor.ChooseLogicalPlace | busybox/fdisk.c:2376-2453 | the start that the answers given lead to decides where the partition and its table go and whether there is room; both lie inside of the extended partition; and when the partition is apart from all others and from all tables |
| Fdisk.Editor.AddLogical | busybox/fdisk.c:2474-2488 | one partition is added, exactly if the start is within the limit, and no other moves; the start that the answers given lead to decides where it and its table go; the table stays valid if and only if the sector for the new table is not in use for another one; the partition is apart from all others and from all tables if and only if its first sector is, which holds if no answer goes astray and it did not move along with its table; it moves only from a free start right behind the first sector; then it shares no sector with another one and keeps the gap behind each; with its table it lies in the extended partition |
| Fdisk.Editor.AddPartition | busybox/fdisk.c:2349-2472 | the answers given lead to the start and to the end; a primary partition that is added has exactly the sectors between them, lies within the disk, apart from all others exactly if its first sector is and always if no answer goes astray, and then shares no sector with any of them; the table stays valid, also when it is an extended one |
| Fdisk.Editor.WrongPOrder | busybox/fdisk.c:1979-2008 | the result is 0 if and only if the primary and the logical partitions are in the order of the disk |
| Fdisk.Editor.StartIs | busybox/fdisk.c:1993-1996 | the start that is compared is that of the partition on the disk, for primary and for logical ones |
| Fdisk.Editor.OrderedApart | busybox/fdisk.c:2385-2415 | with the primary partitions of a valid table in the order of the disk and the logical ones inside of the extended one, no answer goes astray |

## Left out

- fec_encode_linear (lib/libfec.c:738-756): the loop of fec_encode over one flat buffer.
- Matrices of lib/libfec.c are flat buffers with row offsets (`FecMatrix.Offset`), and the sixteen unrolled statements of addmul1 are an inner loop; loops with several jobs are split into methods, one for each job.
- malloc failures, printing, progress, prompts other than their answers, and option parsing.
- nandwrite is modelled as ofgwrite runs it, with `-pm` and a regular file: no OOB data, no standard input, start 0, blockalign 1, and blocks that are not bad have been erased before.
- nandwrite.c:398 rounds an offset down by a mask; the model rounds down by remainder, which is the same for the eraseblock sizes that are powers of two.
- Only finitely many reads of a file are interrupted, so that the loop of read_all (ubiformat.c:349-365) ends.
- A read(2) from the device delivers at least one byte, so that the loop of mtd_read ends.
- Fec.FecNew: assumes at least one source packet; smaller numbers are not rejected, and the source then writes outside of its buffers (lib/libfec.c:681).
- The buffer of flash_image (ubiformat.c:457) is one that survives `continue`, as its users rely on.
- The choice of counters in ubiformat_main by percentage (ubiformat.c:864-900), which uses floating point, and the comparison of offsets (908-929).
- ubigen_write_volume and ubigen_add_volume, which ubiformat does not use.
- Fdisk.Editor.ReadExtended: assumes a table on which it ends, which LogicalChain.RemovalEnds tells from the others.
- Fdisk.Editor.AddPartition: assumes that no sum overflows 32 bits, nor the signed variable for the end of a partition (busybox/fdisk.c:2388-2394).
- Fdisk.Editor.AddLogical: as above; new_partition (2490-2548) does not check for room in every case, so fewer than sixty partitions are assumed.
- Allocation.Layout.QuietSteady: a sufficient condition on partitions and tables; the exact one, which looks at the answers at the edges, is that of EdgesDecide.
- Allocation.Layout.OverlapsExactly: a condition on the table alone, for primary partitions that do not overlap yet; EdgesDecide is exact for all layouts.
- Fdisk.Editor.WriteTable: the program exits after it, so the changed marks are not cleared; the Sun, SGI, OSF, AIX and GPT labels are not modelled.
- Sectors of the partition editor are values inside of their table entries; that the four primary entries share one sector is modelled by a field of its own, and other sharing does not occur.
- Reordering logical partitions (fix_chain_of_logicals), toggling flags and changing types.
- LogicalChain.ReadBack: well-formed means that a table sector uses its first two entries, as fdisk makes them; other sectors are read by the same code but not promised to come back.
- Cylinder addresses of a partition whose table sector moves are not changed, as in the source.
