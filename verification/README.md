# Verified models of the boot loader's hard parts

Four independent components of the boot loader are modelled and proved in Dafny:

- **SoftFloat double precision** (`softfloat/`): addition, subtraction, multiplication, division, fused
  multiply-add, remainder, rounding to an integer and conversion to a 64-bit integer.
- **The FatFs volume layer** (`driver/ff.c`): the one-sector write-back window, FAT12/16/32 entries over it,
  the cluster allocator, file reading, writing and seeking, directory stepping, and the free-cluster count.
- **Virtual memory** (`bbl/vm.c`): the three-level page table, lazy mappings with reference counts, the
  address search, `mmap`/`munmap`/page faults/`brk`, and the table a supervisor kernel starts with.
- **Interrupts and device responses** (`bbl/mtrap.c`): inter-processor interrupts on any number of harts, and
  the message queues of one hart.

`dafny verify dfyconfig.toml` checks everything. The files carry no `include`; Dafny is given all of them.

## How the models are organised

**Floating point.** `words`, `dyadic` and `ieee` say what a correct answer is, without any algorithm.
A nonnegative double is its bit pattern, a natural number; `Mag` gives the real it denotes, extended past the
finite range; `Rounded` and `RoundFlags` round a real once in one of the five modes and say which exceptions are
signalled (IEEE 754-2008 sections 4.3 and 7.4 to 7.6, tininess before rounding). `Delivers` says that a word is an
exact real rounded once with exactly those flags added. `roundingtheory` shows that these definitions mean what
the standard asks: nearest is closest, directed rounding is the tightest bound on its side, rounding is monotone,
and the remainder is unique. Every operation is a method in the source's own order of steps that ends in `Delivers`
for all finite inputs, subnormals included. Their common backbone is `Ieee.JamInvisible`: replacing everything
below a significand by a sticky bit is invisible to rounding as long as two guard bits remain. The rounding mode and
the flags, which the source reaches through control registers, are fields of `RoundPack.Env`.

**Volume.** `Volume.Fatfs` holds the disk as a sequence of sectors, the window, and a list of outcomes of disk calls to
come, so each call may fail; what is promised of a healthy disk is promised under `Healthy`. `Logical` is the disk
as the file system sees it, with the window laid over it and the second FAT copying the first. `FatTable.Fat` reads that as
a sequence of entries. The allocator is proved against the sequence of entries, and `FatFile.Fil` against the bytes
of the file: `Contents` is the file's sectors in chain order with the private buffer laid over the one it holds.
`Valid` of a file includes the two promises about its cursor: a positive `fptr` has `clust` as the chain element of
its last byte, and `dsect` is the sector of `fptr` whenever `fptr` lies inside a sector. `FileRuns` lifts single calls to
runs of calls: each request is answered with all it asks for, or with as much as there is, and what it does is a step of a byte sequence with a cursor.
`FatRuns` does the same for the allocator.

**Virtual memory.** `PageTable.Tables` keeps the pages of the tree in a map from page numbers; `Flat` reads the tree as one
sequence of 2^27 entries. `Vm.Vm` is stated over that sequence: `VmRegions.State` says that each mapping record counts exactly
the entries that name it, that each such entry lies in the range of its record, and that file references are those of the live records.
The out-parameter `alive` is false where the source's `kassert` stops the machine or a search never ends, and the contracts say when that can be.
`VmSearch` is the address search on values, in units of pages. `SupervisorVm` works on physical memory as an
array of words, and translates with the hardware's walk.

**Harts.** `Ipi` is a state machine with one step per atomic swap, shared read or CSR access, and any hart may take the next
step. `DeviceQueues.Hls` is the linked lists of messages on one hart.

## Where the code and what it promises part

- **Fused multiply-add with a negated addend.** For `op` with the subtract bit set, a zero product returns `uiC` itself, not
  negated (softfloat/s_mulAddF64.c:176-178), and an infinite `uiC` likewise (softfloat/s_mulAddF64.c:61). For finite operands
  `MulAdd.F64MulAdd` is correct exactly when `ForgetsNegation` does not hold; that predicate is the guard of the branch, and
  `MulAdd.ForgottenNegationIsWrong` shows that every input it admits is answered wrongly (`MulAdd.ForgottenNegationOfOne`: 0 * 1 - 1 gives 1).
  An infinite `uiC` with a finite product is answered rightly if and only if it is not to be subtracted. With `op` = 0 both always hold.
- **`f_getfree` and the reserved entries.** The fast scan for FAT16 and FAT32 starts at entry 0 and so counts a zero in entries 0 and 1.
  `FatFree.ScanIsRight`: the count is right if and only if the volume is FAT12 or both are nonzero. `FatFree.GetFree` also
  shows that after a failed scan the partial count is still stored as `free_clust` (driver/ff.c:3481).
- **`__vm_alloc` and large requests.** The last start is `mmap_max - npage * 4096` in unsigned arithmetic, so a request larger than
  `mmap_max` makes it wrap and the search runs past the limit. `VmSearch.SearchIsRight`: the search answers rightly on every page table if
  and only if the request is no larger than `mmap_max`. `VmSearch.LargerRequest` says what a larger request gets on a given table, and
  `VmSearch.LargerIsRight` that it is right exactly if it gets nothing. `VmSearch.OneGigabyteAndAPage` is an instance: with nothing mapped, a request for a
  page more than a gigabyte, below a limit of a gigabyte, gets the first page of the search. That no range of empty pages is there to be found is
  necessary for a right answer (`VmSearch.RightOnlyWithoutWindow`) but not enough (`VmSearch.NoWindowStillMisleads`). Such a search may also
  go round for ever; the model finds out by noticing that the counter has wrapped to 0 twice, which `VmSearch.AnswerIsSearch` justifies.
  `mmap` maps what the search returns. `Vm.Vm.DoMmapRange`: all of its invariants survive if the range ends within the table, and
  `Vm.RangePastTable` and `Vm.RangeWrapped` show that they do not otherwise, a wrapped range whose 32-bit page count is 0 aside.
- **NaN through two conversions.** Rounding a NaN to an integer gives the default NaN, whose sign bit is set, and the conversion
  saturates by sign. `Convert.RoundToIntThenToI64`: rounding first and converting directly agree if and only if the input is
  not a positive NaN. `Convert.PositiveNaNDiffers` is an instance.
- **The queue service.** Requests are pushed in front (bbl/mtrap.c:204), and `io_irq_service` takes the first it finds.
  `DeviceQueues.Hls.IoIrqService`: the request it serves is the read that has waited longest if and only if it is the only one
  waiting. `DeviceQueues.Hls.SecondComesFirst` is an instance with two.

## Model

| member | source | states |
|---|---|---|
| Ieee.JamInvisible | softfloat/s_shift64RightJam.c:6-15 | A value and its sticky form round alike in every mode and under either sign, with the same flags, whenever two bits remain below the last place of the result; stated over unbounded integers and reals |
| Ieee.ExactRounds | softfloat/s_roundPackToF64.c:57-60 | A value that is itself a double rounds to itself and signals nothing |
| Ieee.FloorUnique | softfloat/s_roundPackToF64.c:33-60 | Every real has at most one double directly at or below it, so the rounding specification has one answer |
| RoundingTheory.NearestIsClosest | softfloat/s_roundPackToF64.c:19-32 | Both nearest modes return a double at least as close as every other one, and at a tie the even one or the larger one (IEEE 754-2008 section 4.3.1) |
| RoundingTheory.DirectedIsTight | softfloat/s_roundPackToF64.c:26-32 | Directed modes return the nearest double on their side of the value (section 4.3.2) |
| RoundingTheory.RoundingIsMonotone | softfloat/s_roundPackToF64.c:10-66 | Rounding never reverses an order, in any mode |
| RoundingTheory.DeliveredIsNearest | softfloat/s_roundPackToF64.c:10-66 | What an operation delivers in a nearest mode is, if finite, at least as close to the exact result as every other double |
| RoundingTheory.DeliveredIsDirected | softfloat/s_roundPackToF64.c:10-66 | In the directed modes it lies on the side the mode asks for |
| RoundingTheory.FlagsAreExact | softfloat/s_roundPackToF64.c:33-57 | Overflow, inexact and underflow in terms of the value alone: 2^1024, what is delivered, and 2^-1022 (sections 7.4 to 7.6) |
| RoundingTheory.OverflowResult | softfloat/s_roundPackToF64.c:47-54 | Infinity or the largest double, by mode and sign |
| RoundingTheory.SomeValues | softfloat/s_roundPackToF64.c:60 | The patterns of one, minus one, the least and the largest double denote them |
| RoundingTheory.RemainderUnique | softfloat/f64_rem.c:87-98 | At most one integer and one remainder satisfy the definition of remainder (section 5.3.1) |
| RoundPack.RoundPackToF64 | softfloat/s_roundPackToF64.c:10-66 | For every sign, exponent and normalised or subnormal-range significand: the value rounded once, with inexact, overflow and underflow exactly as the specification says, including carry into the next binade, to normal and to infinity |
| RoundPack.NormRoundPackToF64 | softfloat/s_normRoundPackToF64.c:8-24 | The same for significands that still have to be normalised, through both the exact packing and the rounding branch |
| RoundPack.RoundSigCorrect | softfloat/s_roundPackToF64.c:21-32 | Adding the increment and clearing the tie bit picks the neighbour the mode asks for, for any value in the same sticky cell |
| RoundPack.PackedExactly | softfloat/s_normRoundPackToF64.c:15-19 | Packing without rounding loses nothing and must signal nothing |
| Operands.SubnormalOperand | softfloat/s_normSubnormalF64Sig.c:7-18 | The normalised exponent and significand of a subnormal denote its value |
| Operands.PropagateNaN | softfloat/s_propagateNaNF64UI.c:10-24 | The default NaN, and invalid exactly if an operand signals |
| Operands.NaNFlagsMean | softfloat/specialize.h:92-97 | A NaN signals exactly if its quiet bit is clear |
| Primitives.Shift64Jam | softfloat/s_shift64RightJam.c:6-15 | The sticky shift stays in the cell of the exact quotient, for every count |
| Primitives.Shift128Jam | softfloat/s_shift128RightJam.c:7-31 | The same over two words |
| Primitives.CountLeadingZeros64 | softfloat/s_countLeadingZeros64.c:6-32 | The number of zero bits above the top bit, 64 for zero |
| Primitives.Mul64To128 | softfloat/s_mul64To128.c:6-28 | The two words are exactly the 128-bit product |
| Primitives.EstimateDiv128To64 | softfloat/s_estimateDiv128To64.c:6-28 | For every divisor of at least 2^63 the estimate lies in [q, q+2], and is the largest word when the quotient does not fit, as softfloat/primitives.h:609-615 documents |
| Multiply.F64Mul | softfloat/f64_mul.c:10-91 | For all finite operands the product rounded once with exact flags; all infinity, zero-times-infinity and NaN cases |
| Multiply.ProductJam | softfloat/f64_mul.c:63-72 | Folding the low product word to a sticky bit and shifting left by one does not change the rounding |
| AddSub.F64Add | softfloat/f64_add.c:8-29 | For all finite operands the sum rounded once; the sign of an exact zero is that of IEEE 754-2008 section 6.3; all infinity and NaN cases |
| AddSub.F64Sub | softfloat/f64_sub.c:8-29 | The same for the difference |
| AddSub.ZeroSumSignMeans | softfloat/s_subMagsF64.c:44 | The sign of an exact zero in each case (section 6.3) |
| AddSub.AddMags | softfloat/s_addMagsF64.c:9-77 | The sum of magnitudes rounded once under the given sign, through aligned, subnormal and renormalised cases |
| AddSub.SubMags | softfloat/s_subMagsF64.c:10-81 | The signed difference of magnitudes rounded once, through cancellation |
| AddSub.JammedSum | softfloat/s_addMagsF64.c:50-69 | Jamming the smaller operand does not change how the sum rounds, even after renormalisation |
| AddSub.JammedDifference | softfloat/s_subMagsF64.c:52-73 | Jamming the smaller operand does not change how the difference rounds, even when leading bits cancel |
| Divide.F64Div | softfloat/f64_div.c:10-104 | For all finite operands with nonzero divisor the quotient rounded once, subnormal and overflowing results included; all special cases with their flags |
| Divide.DivideSignificands | softfloat/f64_div.c:69-86 | Although the estimate is corrected only when its low nine bits are at most 2, the result is the quotient or sticky in the same cell; the correction loop terminates |
| Divide.QuotientJam | softfloat/f64_div.c:69-86 | Such a significand rounds like the exact quotient |
| MulAdd.F64MulAdd | softfloat/s_mulAddF64.c:10-188 | For every op and all finite operands outside `ForgetsNegation`, the fused result rounded once, which is ab + c, ab - c, c - ab or -ab - c for op 0 to 3, with the sign section 6.3 requires for exact zeros; what is returned in the excluded case; all infinity and NaN cases with flags, and when an infinite addend has the right sign |
| MulAdd.FourOperations | softfloat/s_mulAddF64.c:42-45 | Which bit of op negates the addend, and which the product |
| MulAdd.OperationSigns | softfloat/s_mulAddF64.c:42-45 | The signs the product and the addend enter with |
| MulAdd.ForgottenNegationIsWrong | softfloat/s_mulAddF64.c:176-182 | Every excluded input is answered wrongly, so the exclusion is exact |
| MulAdd.ForgottenNegationOfOne | softfloat/s_mulAddF64.c:176-182 | One such input |
| MulAdd.AddAligned | softfloat/s_mulAddF64.c:97-116 | With equal signs, the 128-bit aligned sum rounds like the exact sum, whichever operand is larger |
| MulAdd.SubAligned | softfloat/s_mulAddF64.c:117-157 | With opposite signs, the difference after 128-bit cancellation and renormalisation rounds like the exact difference, with its sign, and is reported as zero exactly when it is |
| MulAdd.NormaliseWide | softfloat/s_mulAddF64.c:141-156 | Renormalising a 128-bit difference, over the word boundary and back by one, keeps how it rounds |
| Remainder.F64Rem | softfloat/f64_rem.c:10-113 | For all finite a and nonzero b, exactly a - n*b with n nearest a/b and even at ties, never inexact, a zero with the sign of a; all special cases |
| Remainder.Reduce | softfloat/f64_rem.c:60-86 | Reduction with underestimated quotients of 62 bits keeps the remainder class and the parity of the quotient, and terminates |
| Remainder.ChooseNearest | softfloat/f64_rem.c:87-98 | The subtracting loop and the mean test end at the remainder of least magnitude, with an even quotient at ties |
| Remainder.ExactResult | softfloat/f64_rem.c:99-101 | The remainder is always a double, so packing it never rounds |
| Convert.F64RoundToInt | softfloat/f64_roundToInt.c:9-80 | Rounding on the packed bits, with the carry rippling into the exponent, gives the integer the mode asks for; inexact exactly on request and change |
| Convert.RoundIntMeans | softfloat/f64_roundToInt.c:61-71 | The integer of each mode: nearest, with ties to even or away, or next to the value on the mode's side (section 5.9) |
| Convert.RoundPackToI64 | softfloat/s_roundPackToI64.c:8-52 | The 64.64 fixed-point value rounded to an integer, saturated with invalid if it does not fit |
| Convert.SaturatedIsNearest | softfloat/s_roundPackToI64.c:45-49 | Values that do not fit go to the nearest 64-bit integer |
| Convert.F64ToI64 | softfloat/f64_to_i64.c:9-44 | The real value of a rounded to an integer in the given mode, saturated with invalid, for all inputs (IEEE 754-2008 section 5.8) |
| Convert.RoundThenConvert | softfloat/f64_roundToInt.c:58-71 | Converting an already rounded value, in any mode, gives what converting the original in the first mode gives, and is never inexact |
| Convert.RoundToIntThenToI64 | softfloat/f64_to_i64.c:9-44 | The two routes from a double to an integer agree, for all pairs of modes, if and only if the input is not a positive NaN |
| Convert.PositiveNaNDiffers | softfloat/f64_roundToInt.c:22-26 | A positive NaN on which they differ |
| Volume.Fatfs.constructor | driver/ff.c:2201-2220 | A volume as mounting leaves it is in order, and if its FAT copies agree the disk is the logical disk |
| Volume.Fatfs.SyncWindow | driver/ff.c:725-750 | The logical disk does not change; success leaves the window clean; with working writes all FAT copies agree again |
| Volume.Fatfs.WriteBack | driver/ff.c:735-748 | The dirty sector reaches the disk and its mirrors, and nothing else is written |
| Volume.Fatfs.MoveWindow | driver/ff.c:754-776 | The logical disk does not change; on success the window holds the sector asked for; a failed read, or a sector past the end, invalidates it |
| Volume.Fatfs.FlushedDisk | driver/ff.c:735-748 | With a clean window and copies in step, the physical disk is the logical one |
| Volume.OverlayWritten | driver/ff.c:2777-2778 | Writing data sectors past the window changes exactly those in the logical disk |
| FatTable.StoredReadsBack | driver/ff.c:914-944 | An entry stored and read again is the value at the type's width, for FAT12, FAT16 and FAT32 |
| FatTable.FatLayout | driver/ff.c:860-880 | Entry c of the FAT in terms of the bytes of the disk: which sector and offset, low byte first, FAT12 entries in pairs of three bytes |
| FatTable.EntryLayout | driver/ff.c:860-880 | The same in terms of the bytes of the table |
| FatTable.FiveInFat16 | driver/ff.c:871-873 | Bytes 05 00 of a FAT16 entry are 5 |
| FatTable.StoredLayout | driver/ff.c:914-944 | Which bytes a stored value leaves there |
| FatTable.StoredKeepsOthers | driver/ff.c:915-927 | No other entry changes, not even half way through a store, including FAT12 entries that share a byte or straddle two sectors |
| FatTable.StoredKeepsReserved | driver/ff.c:937-944 | The top four bits of a FAT32 entry survive a value of 28 bits; those of a longer value are or-ed in |
| FatTable.GetFat | driver/ff.c:844-888 | Reads the entry of the logical FAT, or reports an error; the logical disk does not change |
| FatTable.PutFat | driver/ff.c:899-952 | Updates exactly one entry of the logical FAT; other entries and all data survive even a disk error |
| FatChain.WalkIsReachable | driver/ff.c:979-1001 | The clusters the removal loop visits are exactly those reachable from the start, on any FAT, cyclic ones included |
| FatChain.WalkOfChain | driver/ff.c:979-1001 | From the head of a chain they are its clusters in order |
| FatChain.StopOfChain | driver/ff.c:979-1001 | And the walk stops at its end mark, so removing a chain reports no error |
| FatChain.FreeingShrinks | driver/ff.c:984 | Each step zeroes a nonzero entry, which is why removal terminates |
| FatChain.RemoveChain | driver/ff.c:962-1005 | Frees exactly the clusters of the walk and keeps all others, terminates on any table, keeps a right free count right, and reports an internal error exactly when the walk stops at an entry 1 |
| FatChain.FindFree | driver/ff.c:1037-1049 | The first free entry after the hint in cyclic order; 0 only if no entry is free |
| FatChain.NoneFreeOnTheWay | driver/ff.c:1037-1049 | First in cyclic order: stepping from the hint round the end of the table, no entry before it is free or reserved |
| FatChain.CreateChain | driver/ff.c:1015-1066 | Follows an existing link without change, or links the first free cluster as the new end, or reports exactly why not; the free count, the hint and the flag are updated only when a cluster is taken |
| FatChain.LinkCluster | driver/ff.c:1051-1054 | The new cluster ends the chain of the previous one, and no other entry changes even on error |
| FatChain.GrownChain | driver/ff.c:1051-1054 | A chain plus the linked cluster is a chain |
| FatChain.LinkedCount | driver/ff.c:1055-1060 | Linking takes exactly one cluster from the free ones |
| FatRuns.StepKeeps | driver/ff.c:962-1066 | Each call keeps every chain whole and apart from the others, and free clusters plus clusters in chains constant |
| FatRuns.RunsAreSound | driver/ff.c:962-1066 | So does every run of calls |
| FatRuns.Serve | driver/ff.c:962-1066 | Each request for a chain, a cluster more or a removal makes such a step of the right kind, taking the first cluster the search meets, or is refused because none is free or the search meets a reserved entry first; a right free count stays right, and even a failing disk leaves all chains whole but the one named |
| FatRuns.ServeAll | driver/ff.c:962-1066 | Any list of requests makes a run that answers each in turn; in the end the chains are whole and apart, and the free count plus the clusters held is what it was; if the disk fails, the chains not named by the failing request are still whole |
| FatFree.GetFree | driver/ff.c:3430-3487 | The cached count, or what the scan finds, the reserved entries included; which entry makes it report an internal error, and what is cached after an error |
| FatFree.ScanBySector | driver/ff.c:3462-3480 | The sector scan counts the zero entries of the whole table |
| FatFree.ScanByEntry | driver/ff.c:3454-3461 | The entry scan counts the free clusters, up to the first entry 1, which is the internal error |
| FatChain.CountIsSize | driver/ff.c:3454-3461 | The number counted is the size of the set of free clusters |
| FatFree.ScanIsRight | driver/ff.c:3454-3480 | The result is the number of free clusters if and only if the volume is FAT12 or entries 0 and 1 are nonzero |
| FatDir.Dir.Sdi | driver/ff.c:1105-1144 | Lands on the place of the entry, in static tables and in chains, or fails only if there is no such place |
| FatDir.Dir.Next | driver/ff.c:1153-1214 | From the place of an index to the place of the next one, the same as seeking there; at the end which of the errors it reports, or that the table is stretched by one cleared cluster |
| FatDir.TableOfChain | driver/ff.c:1127-1141 | A table in a chain has 16 entries of 32 bytes for each sector of each cluster, in the order of the chain, and no others |
| FatDir.StaticTable | driver/ff.c:1122-1126 | The root directory of FAT12 and FAT16 begins behind the FATs and has as many entries as the boot sector says |
| FatDir.FirstEntry | driver/ff.c:1116-1140 | Where each kind of table begins |
| FatDir.NextDynamic | driver/ff.c:1170-1206 | In a chain the place of the next entry is in the next sector or at the start of the next cluster |
| FatDir.ClearCluster | driver/ff.c:1189-1198 | Every sector of a new directory cluster is zero, and no other sector changes |
| FileView.PlacesFit | driver/ff.c:826-834 | The sectors of a chain of distinct clusters are distinct data sectors |
| FileBytes.PatchedBytes | driver/ff.c:2713-2826 | Sectors patched piece by piece are the old bytes with the written ones spliced in at the cursor |
| FatFile.Fil.constructor | driver/ff.c:2587-2599 | An opened file is at position 0 of the bytes its chain holds |
| FatFile.Fil.ByteOnDisk | driver/ff.c:2655-2657 | With the buffer written back, byte i of a file is byte i modulo 512 of the sector of its cluster on the disk |
| FatFile.Fil.Read | driver/ff.c:2612-2703 | Returns the bytes from the cursor up to the count or the end, moves the cursor by as many, changes no byte of the file, of other sectors or of the table; only the disk can make it fail |
| FatFile.Fil.ReadPiece | driver/ff.c:2636-2700 | One turn of the loop: whole sectors straight from the disk with the dirty buffer laid over them, or a piece from the buffer |
| FatFile.Fil.Write | driver/ff.c:2713-2826 | The bytes from the cursor on become the data written, all others stay, the size grows as needed; a write falls short only past the end and with the disk full, and writes nothing if the size would pass 2^32; no data sector and no table entry in use outside the file changes; only the disk or a damaged table can make it fail, and it does no damage |
| FatFile.Fil.WritePiece | driver/ff.c:2737-2817 | One turn of the loop extends the patched part by what it reports, or fails for the disk or a damaged table |
| FatFile.Fil.DirectRead | driver/ff.c:2658-2675 | Whole sectors read past the buffer are those of the file, the dirty buffer included |
| FatFile.Fil.DirectWrite | driver/ff.c:2773-2793 | Whole sectors written past the buffer replace exactly those of the file, and a buffer among them is refreshed |
| FatFile.Fil.Seek | driver/ff.c:3128-3201 | The cursor goes to the offset, clipped to the size in a file open for reading; in one open for writing it falls short only past the end and with the disk full; no byte of the file changes; only the disk or a damaged table can make it fail |
| FatFile.Fil.SeekFollow | driver/ff.c:3156-3172 | Following or stretching the chain arrives at the cluster of the target, or at the last one of a full disk, or fails for the disk or a damaged table |
| FileRuns.Serve | driver/ff.c:2612-3201 | Every request is one step of a byte sequence with a cursor, and is answered in full or with as much as there is: a read up to the end, a write or seek short only past the end and leaving the disk full; refused only if the file was not opened for it; an internal error only for a write or seek and only with a damaged table |
| FileRuns.ServeAll | driver/ff.c:2612-3201 | Any list of requests makes a run of that byte sequence which answers each of them in turn, up to the first failure; on a healthy disk with an undamaged table none fails |
| FatChain.LinkedSane | driver/ff.c:1051-1054 | Taking a cluster puts no reserved value into the table |
| FileRuns.BytesRememberLastWrite | driver/ff.c:2612-3201 | After any run each byte is the one last written there, or the original |
| FileRuns.ReadBack | driver/ff.c:2612-3201 | A write, a seek back and a read, so answered, return what was written: all of the data unless the write fills the disk |
| FileView.CrowdedStays | driver/ff.c:2713-2826 | While a file only grows, a disk without room stays without room |
| FileView.TableOthers | driver/ff.c:1051-1054 | Stretching a file, even unsuccessfully, keeps the table entries of all other files |
| PageTable.PtdFields | bbl/vm.c:74-77 | A directory entry is valid, is a table and leads to the page it was made from |
| PageTable.SlotsDistinct | bbl/vm.c:129-161 | Different virtual pages have different slots |
| PageTable.ThreeLoads | bbl/vm.c:129-151 | What the table holds for an address is what three loads find, indexed by bits 38 to 30, 29 to 21 and 20 to 12 |
| PageTable.KernelAccess | bbl/vm.c:95-104 | Kernel entries are closed to the user and allow the kernel what was asked, by the hardware's permission masks |
| PageTable.LeafWrite | bbl/vm.c:250 | Writing one slot changes the lookup of its page and of no other |
| PageTable.GrownLookup | bbl/vm.c:143-144 | Hanging a fresh zeroed page changes no lookup |
| PageTable.Tables.PageAlloc | bbl/vm.c:26-32 | Pages are handed out once each until they run out, and none is in use already |
| PageTable.Tables.WalkInternal | bbl/vm.c:129-151 | The slot of the page, 0 exactly when no path exists and none is to be created; no entry and no other slot changes |
| PageTable.Tables.Store | bbl/vm.c:250 | Updates the flat map at one page |
| PageTable.Tables.VaAvail | bbl/vm.c:163-167 | Says whether the flat map is empty at a page |
| VmRegions.PtrFacts | bbl/vm.c:247-248 | The address of a mapping record is never 0 and never a valid entry, and identifies the record |
| VmRegions.Released | bbl/vm.c:60-67 | Giving up one page of a mapping keeps counts and file references exact; the file is released exactly when the last page goes |
| VmRegions.Named | bbl/vm.c:278 | An empty page that comes to name a record uses up one of its outstanding counts |
| VmRegions.Taken | bbl/vm.c:45-54 | Only a record that nothing names is taken |
| VmRegions.GrantsMeans | bbl/vm.c:84-107 | Entry types compared bit by bit grant exactly the accesses the protection allows; write and execute imply read |
| VmRegions.UserAccess | bbl/vm.c:79-94 | User entries lead to their frame and allow the user what the mapping asks, by the hardware's permission masks |
| VmRegions.RecordsFillAPage | bbl/vm.c:8-17 | As many mapping records as fit in a page |
| Vm.RecordsCountTheirPages | bbl/vm.c:239-286 | In every state between calls a record's count is the number of pages that name it, and a free record is named by none |
| Vm.Vm.constructor | bbl/vm.c:422-430 | The state after start-up satisfies the invariant |
| Vm.Vm.VmrAlloc | bbl/vm.c:44-57 | The first free record, with a reference on its file, or no change if all are taken |
| Vm.Vm.VmrDecref | bbl/vm.c:60-67 | One count less, and the file given back exactly at zero |
| Vm.Vm.HandlePageFault | bbl/vm.c:193-229 | A lazy page becomes valid with its mapping's protection after each byte the mapping covers was read from its own place in the file, one count is given up, other pages do not change; which accesses succeed |
| Vm.FillRequestFills | bbl/vm.c:209-216 | That is what the read asks for, and no more than the mapping or the page |
| Vm.SecondPage | bbl/vm.c:211-212 | For instance the second page of a mapping comes from the second page of its file |
| Vm.Vm.DoMunmapRange | bbl/vm.c:239-253 | Exactly the pages of the range become empty, counts stay exact |
| Vm.Vm.DoMunmap | bbl/vm.c:288-298 | Refuses misaligned and foreign ranges without change, and never touches pages outside the user addresses |
| Vm.Vm.UserRangeMeans | bbl/vm.c:186-191 | A range is accepted exactly if all its bytes are user bytes |
| Vm.Vm.VmAlloc | bbl/vm.c:169-184 | For requests of any size, what the source's search returns, or that it never returns; for one no larger than mmap_max, the lowest page address from brk on with enough empty pages below mmap_max, or 0 if there is none |
| Vm.Vm.LastInUse | bbl/vm.c:176-178 | The backward scan stops at the last page in use of the candidate range, or at its start |
| VmSearch.AnswerIsSearch | bbl/vm.c:171-183 | The answer is what the loop returns after some number of turns, and there is none exactly if it never returns |
| VmSearch.FittingRequest | bbl/vm.c:171-183 | A request no larger than the limit gets the lowest range that fits, or none; skipping past the last page in use misses none |
| VmSearch.LargerRequest | bbl/vm.c:171-183 | A larger one gets the lowest range of empty pages before the top of the address space, if there is one, though nothing fits |
| VmSearch.LargerIsRight | bbl/vm.c:171-183 | Its answer is right exactly if it is none |
| VmSearch.SearchIsRight | bbl/vm.c:171-183 | All page tables are searched rightly if and only if the request is no larger than the limit |
| VmSearch.RightOnlyWithoutWindow | bbl/vm.c:171-183 | A larger request is answered rightly only if no range of empty pages starts from the break on |
| VmSearch.NoWindowStillMisleads | bbl/vm.c:176-177 | And that is not enough: a table without such a range on which page 1 is returned, since the last candidate's range wraps |
| VmSearch.OneGigabyteAndAPage | bbl/vm.c:171 | A request answered wrongly |
| Vm.Vm.MapRange | bbl/vm.c:270-279 | The pages of the range name the new record whatever they held, and its outstanding counts are used up exactly |
| Vm.Vm.Populate | bbl/vm.c:281-283 | Every page of the range becomes present with the mapping's protection; in a user range no assertion fails |
| Vm.Vm.DoMmapRange | bbl/vm.c:255-286 | A free record is taken and the pages name it or are present, or nothing changes; where the range goes, larger requests included, why it can be refused or stop the machine, and exactly which requests go astray |
| Vm.RangePastTable | bbl/vm.c:270-279 | Naming a record from every page of a range that ends past the table breaks the invariant |
| Vm.RangeWrapped | bbl/vm.c:266-270 | So does taking one for a range that wraps round, for which the loop does nothing, unless its 32-bit count comes out as 0 |
| Vm.Vm.DoMmap | bbl/vm.c:300-316 | Which error each bad call gets, where the range goes, and the limit on the break |
| Vm.Vm.DoBrk | bbl/vm.c:318-337 | The break ends at the request kept between its bounds; pages given up are empty, pages gained are mapped |
| Vm.ClipIsNearest | bbl/vm.c:320-324 | The break goes to the address between its bounds nearest to the request |
| SupervisorVm.TranslatesAsIntended | bbl/vm.c:432-468 | Walking the finished table as section 4.6 of the privileged architecture 1.7 prescribes, every 64-bit address translates as intended: kernel addresses to address + bias, the topmost pages to physical pages 0, 1, ..., and nothing else at all |
| SupervisorVm.ReachMeans | bbl/vm.c:114-118 | A leaf of the walk maps as much as its level reaches: 4096 times 512 to the power of the level |
| SupervisorVm.SupervisorVmInit | bbl/vm.c:432-478 | Builds that table behind the kernel, with all indices in range, no other memory touched and the last entry still empty when the source asserts it; uses the memory or the address space, whichever is less, up to a superpage, and maps every kernel address whose frame lies in it |
| SupervisorVm.UsableIsNearlyAll | bbl/vm.c:434-435 | How much memory is used |
| SupervisorVm.KernelIsMapped | bbl/vm.c:452-458 | Every kernel address whose frame lies in the memory used is mapped to it |
| SupervisorVm.KernelEndsBelow | bbl/vm.c:452-458 | The kernel's superpages never reach the last middle entry |
| Ipi.RunLosesNothing | bbl/mtrap.c:288-331 | In every interleaving on any number of harts a raised flag has an interrupt pending or a hart inside a step that will raise it or take the flag, and a queued response is announced or about to be |
| Ipi.RegistersChange | bbl/mtrap.c:288-331 | Which moves set and clear each interrupt bit, each flag and each queue, and that nothing else changes them |
| Ipi.RunLowers | bbl/mtrap.c:298-327 | In every run SSIP is down between the step that clears it and the end of the call |
| Ipi.ClearIpiLowers | bbl/mtrap.c:325-330 | From start-up, in every run, the last step of a clear_ipi on an empty queue leaves flag and SSIP down |
| Ipi.DevRespLowers | bbl/mtrap.c:299-301 | And reading the flag after the last response finds SSIP down, which ends the call if the flag is down |
| Ipi.DevRespRestores | bbl/mtrap.c:302 | While the step after a raised flag puts it up |
| Ipi.ClearIpiCall | bbl/mtrap.c:322-331 | A clear_ipi call with no response queued ends with the flag and SSIP down, whatever other harts do meanwhile |
| Ipi.ClearIpiKeeps | bbl/mtrap.c:322-331 | With responses queued SSIP stays |
| Ipi.DevRespCall | bbl/mtrap.c:288-307 | A dev_resp call that takes the last response ends with SSIP up exactly if it read a raised flag, whatever other harts do meanwhile |
| Ipi.DevRespMore | bbl/mtrap.c:293-295 | With more responses queued dev_resp takes the oldest and changes nothing else |
| Ipi.SendIpiCall | bbl/mtrap.c:309-320 | A send_ipi call interrupts the recipient if it raised the flag, and otherwise changes nothing |
| Ipi.RespondCall | bbl/mtrap.c:151-166 | A response is queued last and SSIP set; a machine interrupt taken becomes SSIP |
| Ipi.InterruptsAreSent | bbl/mentry.S:228-230 | Over any run, machine interrupts taken do not exceed writes to send_ipi |
| Ipi.QuietStatesAnnounce | bbl/mtrap.c:151-166 | From start-up, with no hart inside a step: a raised flag implies a pending interrupt, and a nonempty response queue implies SSIP |
| Ipi.RaisedIsDelivered | bbl/mtrap.c:309-331 | From every such state at most six further steps bring a raised flag to the supervisor's notice |
| Ipi.EveryFairRunDelivers | bbl/mtrap.c:309-331 | And on every schedule it is noticed once each hart has taken a step and then the receiver three of its own, pending machine interrupts being taken before further calls |
| Ipi.SendsAreConserved | bbl/mtrap.c:314-330 | Sends that raised a flag equal clears that returned it plus the flag itself, over any run |
| Ipi.ResponsesAreConserved | bbl/mtrap.c:288-307 | What was queued is what was returned, in order, plus what is still queued, over any run |
| Ipi.MoveLosesNothing | bbl/mentry.S:223-231 | Every single step, the forwarding of a soft interrupt included, keeps this |
| DeviceQueues.AppendChain | bbl/mtrap.c:99-104 | Linking a message behind the last one extends the list by it |
| DeviceQueues.PrependChain | bbl/mtrap.c:204-205 | Linking in front extends it in front |
| DeviceQueues.UnlinkChain | bbl/mtrap.c:91-97 | Unlinking from any position leaves the rest in order |
| DeviceQueues.Hls.Respond | bbl/mtrap.c:151-166 | The message joins the end of the response queue with its answer, no other message changes, and SSIP is set |
| DeviceQueues.Hls.PushRequest | bbl/mtrap.c:203-207 | The message joins the front of the request queue, and no message changes but for its link |
| DeviceQueues.Hls.UartRead | bbl/mtrap.c:87 | A uart read is command 0 to device 0 |
| DeviceQueues.Hls.DevResp | bbl/mtrap.c:288-307 | The oldest response leaves; after the last one SSIP stays exactly if an interrupt is pending |
| DeviceQueues.Hls.ClearIpi | bbl/mtrap.c:322-331 | Returns and clears the flag; SSIP stays exactly if responses wait |
| DeviceQueues.Hls.IoIrqService | bbl/mtrap.c:72-116 | The first read request in the queue gets the character and moves to the end of the responses, no other message is touched; it fails only if there is none; the one served has waited longest if and only if it is the only one |
| DeviceQueues.Hls.SecondComesFirst | bbl/mtrap.c:203-207 | Of two reads handed over in turn the second is served |

## Left out

- The single-precision operations and the conversions other than to 64-bit signed integers: the same algorithms over smaller formats.
- `f64_sqrt`: its correction adds 2*sigZ where the difference of squares grows by 2*sigZ + 1 (softfloat/f64_sqrt.c:57-62), so the steps do not keep the remainder exact.
- NaN payloads: the build has one default NaN, and that is what is modelled.
- Rounding-mode values outside the five defined ones.
- RoundPack.RoundPackToF64: exponents are limited to what its callers can pass, where the source's 16-bit comparison means what it says.
- Primitives.EstimateDiv128To64: for divisors below 2^63, which the source's own documentation excludes.
- Volumes whose geometry wraps 32-bit sector or cluster numbers; mounting's own checks and these bounds are `Volume.Geometry.Valid`.
- A failed disk write may leave the sectors it addressed with arbitrary contents; sectors it did not address are unchanged.
- Volume.Fatfs.MoveWindow: sectors of the second FAT, which no caller asks for; the window would then hold a copy that a flush does not reflect.
- FatRuns.ServeAll: what a disk error in the middle of a change leaves of the chain concerned; the run ends there.
- Ipi.EveryFairRunDelivers: that a pending machine interrupt comes before the next call of an idle hart is the hardware's doing.
- FatFile.Fil.constructor: the chain and size come from the directory entry, which is assumed to describe a whole chain not in the window.
- FatFile.Fil.Seek: bytes between the old end and a larger new size are whatever the disk held, as in the source.
- Two files open on the same volume at once, `f_sync`, `f_truncate`, `f_close`, directory entries and names, long names, mounting, formatting.
- Vm.Vm.DoMmapRange: the state after a request larger than `mmap_max` went astray, that is, got a range that ends past the 2^27 pages of the table. The invariant does not survive it (`Vm.RangePastTable`, `Vm.RangeWrapped`), and a record's 32-bit count may be cut off.
- Vm.Vm.VmrAlloc: allocating the page of mapping records on first use, under a lock the caller already holds.
- Vm.Vm.HandlePageFault: what the page then contains; the file read that fills it is stated, the copying is not, and the read is taken to return something.
- `do_mprotect`, which changes the protection of a whole mapping record rather than of a range.
- Mapping operations are atomic, as under `vm_lock`; translation buffers are not modelled.
- SupervisorVm.SupervisorVmInit: kernels below the canonical upper half, more than 512 SBI pages, or a kernel beginning above the highest address `mem_size` allows; the check that no page was allocated before.
- Weak memory ordering: steps of different harts interleave as in sequential consistency, with the source's fences in place.
- A supervisor that clears its own SSIP bit directly.
- The device protocol around the queues (UART, SPI, SD card, disk requests), instruction emulation, trap entry, ELF loading, printing.
