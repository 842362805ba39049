# Verified model of the boot and firmware kernels

This project models, in Dafny 4.11, the algorithmic kernels of a collection of C programs about
booting: the physical memory map and page allocator of a bootloader, three streaming SHA-256
implementations, GRUB module ordering, CRC-32, a Merkle tree over PCRs, gzip and LZ77 decoding,
the measured-boot log, cache-as-RAM, the ACPI MADT builder and parser, and the scan of a UEFI
firmware volume.

Every C function that updates memory step by step is a method with the same loops, branches and
field updates, proved against a mathematical function of the old state; the theorems about those
functions are lemmas. C integers are bounded mathematical integers with wrap-around written out
(`Machine.dfy`); the CRC and the page bitmap are on bit-vectors. Fixed array capacities of the C
code are parameters, so the results hold for every size.

| file | content |
|---|---|
| `Machine.dfy` | fixed-width integers, powers of two, intervals |
| `MemoryRegions.dfy`, `BootMemory.dfy` | a region list as a function from address to type; the in-place map operations |
| `PageHeap.dfy`, `PageAllocator.dfy` | runs of the page allocator as a state machine; the bitmap allocator |
| `Sha256.dfy`, `Sha256Contexts.dfy` | padding and block folding over any compression function; the three contexts |
| `GrubModules.dfy` | dependency ordering and acyclicity |
| `Crc32.dfy` | the bit-serial register, burst detection, the table-driven form |
| `MerklePcr.dfy` | the array-embedded tree, proofs, binding |
| `Lz77.dfy`, `Gzip.dfy` | token decoding; gzip headers and stored DEFLATE blocks |
| `MeasuredBoot.dfy` | PCR bank and event log |
| `CacheAsRam.dfy` | the line arrays against a flat byte array |
| `Madt.dfy` | the table builder and the parser of another program as inverses |
| `FirmwareVolume.dfy` | volume header, file scan, printing |

Check everything with `dafny verify dfyconfig.toml`.

## Findings

Some properties one would expect of the code do not hold as such. For each, the project proves an
input on which it fails and exactly when, or how far, it holds:

- Freeing pages that are not all allocated makes the free counter wrong
  (`PageHeap.FreeOfFreePage`). The state stays consistent after a free exactly when the whole range
  was allocated (`PageHeap.FreeConsistentExactly`, `PageAllocator.BootPageAllocator.FreePages`). The
  range is that of a page index cut to 32 bits, so an address 2^44 above the heap frees page 0
  (`PageAllocator.FarAddressFreesPageZero`); the pages freed are those addressed exactly when the
  address is less than 2^44 above the heap base (`PageAllocator.PageIndexExact`).
- Erased bytes between two files of a firmware volume are not always stepped over, although the
  scan treats them as padding: it looks for the erased state 23 bytes ahead, which near the end of
  a gap is a byte of the next file's GUID. `FirmwareVolume.GapHidesFile` is a volume of 88 bytes with
  a valid header that loses its only file. The files to be listed are all found when byte 15 of the
  GUID of every file behind a gap, and byte 7 behind a gap of 16 bytes or more, is 0xFF, and only
  then if the gaps are before files to be listed (`FirmwareVolume.ScanRoundTrip`). Files at
  consecutive aligned offsets are always found, and files in other states are stepped over.
- The root of a Merkle tree does not bind the number of leaves. A last leaf equal to the zero padding
  can be left out (`MerklePcr.LeafCountNotBound`), and one leaf that is the hash of two others has
  their root (`MerklePcr.NodeAsLeaf`). Without a collision, trees of different leaf counts share a
  root exactly when, at one depth, the additional leaves are zero, or, at different depths, the
  padded leaves of the smaller tree are the nodes of the larger one on that level
  (`MerklePcr.LeafCountBoundExactly`). With equal counts the root binds all leaves.
- Success of the decompressor does not mean that a complete stream was read: a block with Huffman
  codes ends the decoding (`Gzip.HuffmanUnpacksToNothing`), and so does the end of the input, after
  any number of stored blocks (`Gzip.TruncatedUnpacks`). Success with an output means that it fits, is
  the data of the stored blocks, and that these end at a final block, the end of the input or a
  Huffman block (`Gzip.UnpackExactly`). A complete stored stream was read exactly when following the
  length fields meets a final stored block first (`Gzip.SuccessIsComplete`).
- `largest_free_block` is computed by sanitizing and not updated by merging, so it can be too small
  afterwards (`BootMemory.LargestGoesStale`). It stays right exactly when no run of touching free
  regions adds up to more than it (`BootMemory.MergingKeepsLargest`).
- Sanitizing loses reserved memory inside a free region (`BootMemory.ReservedIsLost`). An address
  that some region of the map marks as not free is later taken for free, whatever the sort does
  with equal bases, exactly when a free region over it starts below all that are not free
  (`BootMemory.FreeInEverySorting`), and by some sort exactly when one starts below or together with
  them (`BootMemory.FreeInSomeSorting`). Only between regions that start together does the sort
  decide (`BootMemory.TieDependsOnSort`, `BootMemory.LeadsUnlessOtherTies`); what it then decides is
  said by `BootMemory.CountsAsFree`. `BootMemory.CleanUpAndAsk` carries this to the calls.
- The MADT parser reads the fields of a record whatever length the record states, so a short last
  record at the end of the memory is read beyond it (`Madt.ShortRecordReadsBeyond`). The parser stays
  inside exactly when `Madt.ReadsInside` holds of the bytes, as it does for every built table
  (`Madt.ParseEncoded`).
- The CRC does not detect all differences in a window of 33 bits: five bytes have the CRC of five
  zeros (`Crc32.UndetectedBurst`). It misses exactly those that are a set bit followed by the
  polynomial (`Crc32.BurstOf33`).
- The entries of a volume can reach beyond its end (`FirmwareVolume.LastFileRunsOver`), but only the
  last one can (`FirmwareVolume.OnlyLastRunsOver`).

## Model

| member | source | states |
|---|---|---|
| `MemoryRegions.TypeAtIsFirstCovering` | mini-bootloader/src/boot_memory.c:121-173 | The meaning of a list gives an address the type of the first region that covers it |
| `MemoryRegions.SanitizeKeepsMeaning` | mini-bootloader/src/boot_memory.c:121-153 | Sanitizing any sorted list yields non-empty, strictly increasing, disjoint regions, and every address keeps its type or stays uncovered |
| `MemoryRegions.MergeKeepsMeaning` | mini-bootloader/src/boot_memory.c:71-95 | Merging keeps the type of every address, for every list |
| `MemoryRegions.MergeIsCanonical` | mini-bootloader/src/boot_memory.c:71-95 | Merging a separated list leaves no touching neighbours of one type |
| `MemoryRegions.CanonicalIsUnique` | mini-bootloader/src/boot_memory.c:71-153 | Two separated, seamless lists with the same address-to-type function are the same list |
| `MemoryRegions.NormalForm` | mini-bootloader/src/boot_memory.c:71-153 | Sanitize then merge: two sorted maps end with equal lists if and only if they denote the same function; running either pass again changes nothing |
| `MemoryRegions.FreeIntervalInOneRegion` | mini-bootloader/src/boot_memory.c:197-212 | On a canonical list a non-empty interval is all free if and only if one free region contains it |
| `MemoryRegions.EmptyIntervalInFreeRegion` | mini-bootloader/src/boot_memory.c:197-212 | What the containment query means for an empty interval |
| `MemoryRegions.TotalLengthCountsCells` | mini-bootloader/src/boot_memory.c:155-170 | In a separated list the lengths of a kind of memory add up to the number of addresses of that kind |
| `MemoryRegions.CellsByType` | mini-bootloader/src/boot_memory.c:155-170 | Free addresses are those of type 1, reserved ones those of any other type |
| `BootMemory.SortingOfSeparated` | mini-bootloader/src/boot_memory.c:97-111 | Sorting, by any algorithm, leaves a sanitized list as it is, so the merging pass works on the sanitized order |
| `BootMemory.LongestFreeIsMaximum` | mini-bootloader/src/boot_memory.c:155-170 | The largest-free-block statistic is attained and exceeded by no free region |
| `BootMemory.LargestBlockIsLongestInterval` | mini-bootloader/src/boot_memory.c:175-195 | On a canonical map the first longest free region is the lowest longest interval of free addresses |
| `BootMemory.AvailabilityMeaning` | mini-bootloader/src/boot_memory.c:197-212 | The region test of the query against the type of every address in the range |
| `BootMemory.MergingKeepsLargest` | mini-bootloader/src/boot_memory.c:71-95 | Merging never shrinks the largest free block, and keeps it if and only if no run of touching free regions adds up to more |
| `BootMemory.LargestGoesStale` | mini-bootloader/src/boot_memory.c:71-95 | Two touching free regions of one byte: the statistic says 1, the merged map has 2 |
| `BootMemory.RunOfMerged` | mini-bootloader/src/boot_memory.c:71-95 | Every free region of a merged map is a run of touching free regions of the map before |
| `BootMemory.FreeIntervalInRun` | mini-bootloader/src/boot_memory.c:197-212 | Before merging, an interval is all free if and only if a run of touching free regions contains it |
| `BootMemory.CountsAsFree` | mini-bootloader/src/boot_memory.c:121-153 | An address marked as not free by some region counts as free if and only if a free region is the first in sorted order to cover it, before one that is not free |
| `BootMemory.FreeInEverySorting` | mini-bootloader/src/boot_memory.c:97-153 | On the map as given: every way of sorting it makes an address free if and only if a free region over it starts below all that are not free |
| `BootMemory.FreeInSomeSorting` | mini-bootloader/src/boot_memory.c:97-153 | Some way of sorting does if and only if a free region over it starts below or together with them |
| `BootMemory.LeadsUnlessOtherTies` | mini-bootloader/src/boot_memory.c:97-111 | Over a covered address one kind starts strictly below if and only if the other does not start below or together |
| `BootMemory.TieDependsOnSort` | mini-bootloader/src/boot_memory.c:97-111 | Two regions with one base: both orders are sortings, and they give an address different types |
| `BootMemory.ReservedIsLost` | mini-bootloader/src/boot_memory.c:121-153 | Free [0, 100) hides reserved [50, 60) |
| `BootMemory.CleanUpAndAsk` | mini-bootloader/src/boot_memory.c:71-212 | Sanitize, merge, query: available if and only if the first sorted region over each address is free; sure to be when free regions of the given map start lowest, and never when others do |
| `BootMemory.BootMemoryMap.AddRegion` | mini-bootloader/src/boot_memory.c:19-39 | Appends exactly when there is room and base + length does not wrap; keeps the no-wrap invariant |
| `BootMemory.BootMemoryMap.Sanitize` | mini-bootloader/src/boot_memory.c:121-173 | In place: same meaning as a sorted permutation of the input, separated; total = free + reserved = number of covered addresses, without wrap-around; fails only on the empty map |
| `BootMemory.BootMemoryMap.RemoveOverlaps` | mini-bootloader/src/boot_memory.c:127-153 | The compaction with a write index computes the sanitized list |
| `BootMemory.BootMemoryMap.KeepRegion` | mini-bootloader/src/boot_memory.c:130-152 | One round drops, trims or keeps a region and leaves the unread ones alone |
| `BootMemory.BootMemoryMap.RecomputeStatistics` | mini-bootloader/src/boot_memory.c:155-170 | The four statistics are the sums and the maximum over the list |
| `BootMemory.BootMemoryMap.MergeAdjacent` | mini-bootloader/src/boot_memory.c:71-95 | In place: same meaning as the sorted input; canonical when the map was sanitized; the statistics keep their old values, and when the largest free block is then still right |
| `BootMemory.BootMemoryMap.JoinRegion` | mini-bootloader/src/boot_memory.c:77-91 | One round extends the region at the write index or adds the next one |
| `BootMemory.BootMemoryMap.FindLargestBlock` | mini-bootloader/src/boot_memory.c:175-195 | The first longest free region; on a canonical map the lowest longest all-free interval |
| `BootMemory.BootMemoryMap.IsAvailable` | mini-bootloader/src/boot_memory.c:197-212 | On a canonical map, true if and only if every address of a non-empty range is free; false on wrap-around |
| `PageHeap.FirstFitIsLowest` | mini-bootloader/src/boot_memory.c:261-279 | The scan returns the lowest fitting run, and none only if there is none, among plain or aligned positions |
| `PageHeap.FirstFitSkips` | mini-bootloader/src/boot_memory.c:263-269 | A set page rules out every start up to it, so going on after it finds the same run |
| `PageHeap.NothingToPlace` | mini-bootloader/src/boot_memory.c:258 | A request for no pages is refused and changes nothing |
| `PageHeap.PlacementIsLowest` | mini-bootloader/src/boot_memory.c:256-329 | An allocation takes the lowest run that fits and is aligned, whenever one exists |
| `PageHeap.StepConsistent` | mini-bootloader/src/boot_memory.c:256-329 | Every allocation and every free of an allocated range keeps: counter = clear bits, live blocks disjoint, exactly their pages set |
| `PageHeap.RunConsistent` | mini-bootloader/src/boot_memory.c:224-329 | The same after any sequence of operations from a fresh heap, which keeps its base and size |
| `PageHeap.FreeConsistentExactly` | mini-bootloader/src/boot_memory.c:283-296 | A free keeps the heap consistent if and only if the whole range was allocated |
| `PageHeap.FreeOfFreePage` | mini-bootloader/src/boot_memory.c:283-296 | Freeing page 0 of a fresh heap makes the counter wrong |
| `PageHeap.FreeUndoesAlloc` | mini-bootloader/src/boot_memory.c:256-329 | Freeing what an allocation returned restores bitmap and counter |
| `PageHeap.PlacedInsideHeap` | mini-bootloader/src/boot_memory.c:256-329 | Returned blocks lie inside the heap and their address is not 0 when the heap base is not |
| `PageHeap.ClearUndoesSet` | mini-bootloader/src/boot_memory.c:243-249 | Clearing a range that was clear before it was set restores the bitmap |
| `PageAllocator.TestWithBit` | mini-bootloader/src/boot_memory.c:243-254 | Setting or clearing a bit of a byte changes that bit and no other |
| `PageAllocator.BootPageAllocator.InitAllocator` | mini-bootloader/src/boot_memory.c:224-240 | A fresh heap of at most the page limit, page count truncated to 32 bits; refused below the least size |
| `PageAllocator.BootPageAllocator.BitmapSet` | mini-bootloader/src/boot_memory.c:243-249 | Changes one abstract bit |
| `PageAllocator.BootPageAllocator.AllocPages` | mini-bootloader/src/boot_memory.c:256-281 | Refines the heap step; 0 when nothing fits |
| `PageAllocator.BootPageAllocator.FirstFreeRun` | mini-bootloader/src/boot_memory.c:261-279 | The scan with skip-ahead equals the first fit |
| `PageAllocator.BootPageAllocator.AllocAligned` | mini-bootloader/src/boot_memory.c:304-329 | Refines the heap step for aligned addresses |
| `PageAllocator.BootPageAllocator.FreePages` | mini-bootloader/src/boot_memory.c:283-296 | Refines the heap step; valid afterwards if and only if the range was allocated; the pages are those addressed if and only if the index was not cut |
| `PageAllocator.PageIndexExact` | mini-bootloader/src/boot_memory.c:288 | The 32-bit page index is the page of the address if and only if the address is less than 2^44 above the heap base |
| `PageAllocator.FarAddressFreesPageZero` | mini-bootloader/src/boot_memory.c:283-296 | Freeing a page at 2^44 of a heap at 0 clears page 0 and leaves the heap consistent |
| `Sha256.PaddingIsLeast` | mini-bios-uefi/src/uefi_image_auth.c:87-89 | The number of zeros is the least that leaves 56 bytes modulo 64 (section 5.1.1 of FIPS 180-4) |
| `Sha256.PadShape` | mini-bios-uefi/src/uefi_image_auth.c:202-240 | The padded message is the message, 0x80, zeros, and eight bytes that spell the bit length modulo 2^64, highest first |
| `Sha256.HashSpells` | mini-bios-uefi/src/uefi_image_auth.c:233-239 | The digest spells the eight final state words in order, each with its highest byte first |
| `Sha256.WriteDigest` | mini-bootloader/src/boot_secure.c:135-140 | The output loop writes that digest |
| `Sha256.InitialDigest` | mini-bootloader/src/boot_secure.c:39-51 | With a compression function that changes nothing the digest is 6a 09 e6 67 and so on, as 32 literal bytes |
| `Sha256.PadIsInjective` | mini-bios-uefi/src/uefi_image_auth.c:202-240 | Messages below 2^64 bits with equal padded forms are equal |
| `Sha256.FeedAllJoins` | mini-bios-uefi/src/uefi_image_auth.c:181-200 | Where the input is cut into updates does not matter |
| `Sha256.FeedIsFold` | mini-bios-uefi/src/uefi_image_auth.c:181-200 | Streaming whole blocks is folding the compression function over them |
| `Sha256.FinishedIsHash` | mini-bios-uefi/src/uefi_image_auth.c:202-240 | The one- or two-block finish of a stream is the fold over the padded message |
| `ImageAuthSha256.Context.Update` | mini-bios-uefi/src/uefi_image_auth.c:181-200 | Appends to the message, nothing after finalization; keeps buffer, state and counter in step with it |
| `ImageAuthSha256.Context.Finalize` | mini-bios-uefi/src/uefi_image_auth.c:202-240 | The FIPS hash of everything fed in, once; the digest spells the folded state |
| `ImageAuthSha256.HashMessage` | mini-bios-uefi/src/uefi_image_auth.c:242-248 | One-shot hashing is the FIPS hash |
| `BootSecureSha256.Context.Update` | mini-bootloader/src/boot_secure.c:95-113 | Appends to the message although whole blocks bypass the buffer |
| `BootSecureSha256.Context.Final` | mini-bootloader/src/boot_secure.c:115-141 | The FIPS hash of everything fed in; the digest spells the folded state |
| `BootSecureSha256.HashMessage` | mini-bootloader/src/boot_secure.c:143-150 | One-shot hashing is the FIPS hash |
| `FirmwareVolumeSha256.Context.Update` | mini-boot-process/src/firmware_volume.c:348-361 | Appends to the message byte by byte; the bit count grows once per call |
| `FirmwareVolumeSha256.Context.Final` | mini-boot-process/src/firmware_volume.c:363-392 | The FIPS hash of everything fed in; the digest spells the folded state |
| `FirmwareVolumeSha256.HashMessage` | mini-boot-process/src/firmware_volume.c:394-400 | One-shot hashing is the FIPS hash |
| `StreamingAgreement.HashImageAuth` | mini-bios-uefi/src/uefi_image_auth.c:173-240 | For every cutting into updates: the hash of the joined pieces |
| `StreamingAgreement.HashBootSecure` | mini-bootloader/src/boot_secure.c:39-141 | For every cutting into updates: the hash of the joined pieces, hence the same digest |
| `StreamingAgreement.HashFirmwareVolume` | mini-boot-process/src/firmware_volume.c:310-392 | For every cutting into updates: the hash of the joined pieces, hence the same digest |
| `GrubModules.StuckHasCycle` | mini-bootloader/src/grub_modules.c:84-105 | When no module can be placed and one is left, the in-range dependencies have a cycle |
| `GrubModules.CompleteOrderIsAcyclic` | mini-bootloader/src/grub_modules.c:107-121 | A complete order with dependencies first rules out every cycle, self-loops included |
| `GrubModules.CompleteIffAcyclic` | mini-bootloader/src/grub_modules.c:66-122 | A maximal placement is complete if and only if there is no cycle |
| `GrubModules.SelfDependencyIsCycle` | mini-bootloader/src/grub_modules.c:89-96 | A module that lists itself, within its count, rules out an order |
| `GrubModules.MutualDependencyIsCycle` | mini-bootloader/src/grub_modules.c:89-96 | So do two that list each other |
| `GrubModules.OutOfRangeIsAcyclic` | mini-bootloader/src/grub_modules.c:89-96 | Dependencies on modules that do not exist, and those beyond the count, do not matter |
| `GrubModules.DependenciesMet` | mini-bootloader/src/grub_modules.c:89-96 | True exactly when all in-range dependencies are placed |
| `GrubModules.Pass` | mini-bootloader/src/grub_modules.c:86-103 | Extends the placement; one that places nothing proves that it is stuck |
| `GrubModules.Round` | mini-bootloader/src/grub_modules.c:84-105 | Ends stuck: the bounded number of passes is enough |
| `GrubModules.TopologicalSort` | mini-bootloader/src/grub_modules.c:66-122 | True if and only if acyclic; then `order` is a permutation with every dependency earlier; otherwise `order` is untouched; the result array is never over-filled |
| `GrubModules.DependencyResolve` | mini-bootloader/src/grub_modules.c:41-64 | The same for the caller, the empty list included |
| `BitFolds.FoldApart` | mini-bios-uefi/src/uefi_image_auth.c:24-29 | Inputs that differ keep registers apart for as many steps as the apartness relation lasts |
| `BitFolds.FeedWord` | mini-bios-uefi/src/uefi_image_auth.c:41-54 | Combining a word with the register first and shifting equals feeding its bits one by one |
| `Crc32.StepInjective` | mini-bios-uefi/src/uefi_image_auth.c:45-50 | The bit step is one-to-one on 32-bit registers |
| `Crc32.StepLinear` | mini-bios-uefi/src/uefi_image_auth.c:45-50 | The bit step distributes over exclusive or |
| `Crc32.FeedBitsInjective` | mini-bios-uefi/src/uefi_image_auth.c:24-29 | Equal further input cannot undo a difference |
| `Crc32.FeedDifference` | mini-bios-uefi/src/uefi_image_auth.c:24-29 | The difference of two registers evolves as a register fed with the difference of the inputs |
| `Crc32.BurstDiffers` | mini-bios-uefi/src/uefi_image_auth.c:24-29 | Different inputs of up to 32 bits take a register to different values |
| `Crc32.BurstDetected` | mini-bios-uefi/src/uefi_image_auth.c:24-29 | Different messages of one length that agree outside a window of 32 bits have different CRCs |
| `Crc32.FeedOwnBits` | mini-bios-uefi/src/uefi_image_auth.c:24-29 | A register fed its own 32 bits ends at zero |
| `Crc32.BurstOf33` | mini-bios-uefi/src/uefi_image_auth.c:24-29 | Different messages that agree outside a window of 33 bits have equal CRCs if and only if they differ in it by a set bit followed by the polynomial |
| `Crc32.UndetectedBurst` | mini-bios-uefi/src/uefi_image_auth.c:24-29 | Five bytes with the CRC of five zeros, so that 32 is the largest window |
| `Crc32.Residue` | mini-bios-uefi/src/uefi_image_auth.c:70-78 | Any message followed by its CRC, lowest byte first, leaves the register 0xDEBB20E3 |
| `Crc32.CheckValue` | mini-bios-uefi/src/uefi_image_auth.c:70-78 | The CRC of the digits 1 to 9 is 0xCBF43926 |
| `Crc32.ByteStep` | mini-bios-uefi/src/uefi_image_auth.c:61-68 | Combining a byte and shifting eight times feeds its bits, lowest first |
| `Crc32.TableStep` | mini-bios-uefi/src/uefi_image_auth.c:61-68 | One table lookup feeds the eight bits of a byte |
| `Crc32.UpdatesJoin` | mini-bios-uefi/src/uefi_image_auth.c:61-68 | Updating with two parts is updating with their concatenation |
| `Crc32.CrcTable.BuildTable` | mini-bios-uefi/src/uefi_image_auth.c:41-54 | Fills every entry with eight shifts of its index, once |
| `Crc32.CrcTable.Update` | mini-bios-uefi/src/uefi_image_auth.c:61-68 | The table-driven loop equals the bit-serial register |
| `Crc32.CrcTable.Compute` | mini-bios-uefi/src/uefi_image_auth.c:74-78 | The CRC defined bit by bit |
| `MerklePcr.ProofBinds` | mini-boot-attestation/src/merkle_pcr.c:124-147 | A proof with at most `depth` siblings that climbs to the root starts from the node its flags spell, or exhibits a collision on its path |
| `MerklePcr.VerifiedLeafIsStored` | mini-boot-attestation/src/merkle_pcr.c:124-147 | With `depth` siblings it carries the leaf at the spelled position, or exhibits a collision |
| `MerklePcr.InjectiveNeverCollides` | mini-boot-attestation/src/merkle_pcr.c:124-147 | An injective node hash leaves only the binding alternative |
| `MerklePcr.RootsBindLeaves` | mini-boot-attestation/src/merkle_pcr.c:41-76 | Equal padded leaves give equal trees; equal roots give equal padded leaves, or a collision between the trees |
| `MerklePcr.EqualRootsEqualLeaves` | mini-boot-attestation/src/merkle_pcr.c:41-76 | With an injective hash and equal leaf counts, equal roots mean equal leaves |
| `MerklePcr.EqualRootsExactly` | mini-boot-attestation/src/merkle_pcr.c:41-76 | Trees of any two depths: the padded leaves of the shallower are a level of the deeper if and only if it is its top; then the roots are equal, and equal roots give that or a collision |
| `MerklePcr.LeafCountBoundExactly` | mini-boot-attestation/src/merkle_pcr.c:41-76 | Built trees of different leaf counts: equal roots if and only if the additional leaves equal the padding, or the smaller tree is the top of the larger, up to a collision |
| `MerklePcr.LeafCountNotBound` | mini-boot-attestation/src/merkle_pcr.c:41-76 | The root does not distinguish a last leaf that equals the padding from no leaf |
| `MerklePcr.NodeAsLeaf` | mini-boot-attestation/src/merkle_pcr.c:41-76 | A single leaf that is the hash of two leaves has the root of the tree over the two |
| `MerklePcr.NextPowerOfTwo` | mini-boot-attestation/src/merkle_pcr.c:23-27 | The least power of two not below the count, in 8 bits |
| `MerklePcr.Log2Ceil` | mini-boot-attestation/src/merkle_pcr.c:29-34 | The least exponent whose power is not below the count |
| `MerklePcr.MerkleTree.Build` | mini-boot-attestation/src/merkle_pcr.c:41-76 | The array holds the hash tree over the padded leaves, leaves in reverse; error codes otherwise, without change |
| `MerklePcr.MerkleTree.HashUp` | mini-boot-attestation/src/merkle_pcr.c:66-73 | The descending loop makes every inner node the hash of its children and leaves the leaves alone |
| `MerklePcr.MerkleTree.GenerateProof` | mini-boot-attestation/src/merkle_pcr.c:85-122 | Exactly `depth` siblings, the original leaf, the right position, and the proof climbs to the root |
| `MerklePcr.VerifyProof` | mini-boot-attestation/src/merkle_pcr.c:124-147 | Accepts exactly the proofs that climb to the expected root |
| `Lz77.CopyRepeats` | mini-bootloader/src/boot_compress.c:51-55 | A copied run repeats with period `distance`, overlaps included |
| `Lz77.DecodeIffFactorises` | mini-bootloader/src/boot_compress.c:30-61 | Decoding gives a string if and only if the tokens cut that string into literals and back-references and it fits |
| `Lz77.DecodeSucceeds` | mini-bootloader/src/boot_compress.c:30-61 | Success if and only if every distance is legal and the output fits |
| `Lz77.DecodeResumes` | mini-bootloader/src/boot_compress.c:30-61 | Decoding a concatenation resumes on the second part |
| `Lz77.Decompress` | mini-bootloader/src/boot_compress.c:30-61 | The loop over the buffer refines decoding; on failure the size and the bytes past the limit are left alone |
| `Lz77.CopyRun` | mini-bootloader/src/boot_compress.c:51-55 | Copying byte by byte inside the buffer, overlap included |
| `Gzip.HeaderRoundTrip` | mini-bootloader/src/boot_compress.c:115-158 | Any header with any combination of optional fields (section 2.3 of RFC 1952) is skipped exactly |
| `Gzip.HeaderExactly` | mini-bootloader/src/boot_compress.c:115-158 | The parser accepts an input and stops at `rest` if and only if the input is some header, reserved flags included, followed by `rest` |
| `Gzip.NotGzip` | mini-bootloader/src/boot_compress.c:119-128 | Without the bytes 1F 8B 08 at the start, or with fewer than ten, unpacking fails |
| `Gzip.BlockTypes` | mini-bootloader/src/boot_compress.c:266-309 | Literal blocks of the four types, final or not, and one that is cut off |
| `Gzip.StoredRoundTrip` | mini-bootloader/src/boot_compress.c:254-313 | Stored blocks (section 3.2.4 of RFC 1951) inflate to the joined chunks whatever follows |
| `Gzip.StoredOverflow` | mini-bootloader/src/boot_compress.c:254-313 | Without room for all of it, inflating fails |
| `Gzip.GzipRoundTrip` | mini-bootloader/src/boot_compress.c:327-354 | Header and stored blocks unpack to exactly the string if there is room, and fail otherwise |
| `Gzip.CutExists` | mini-bootloader/src/boot_compress.c:254-313 | Every input is a sequence of stored blocks, with any NLEN and header bits, and a tail, cut where following the length fields ends |
| `Gzip.CutStops` | mini-bootloader/src/boot_compress.c:254-313 | No input can be cut for two different reasons |
| `Gzip.CutUnique` | mini-bootloader/src/boot_compress.c:254-313 | No input can be cut into two different sequences of blocks |
| `Gzip.InflateExactly` | mini-bootloader/src/boot_compress.c:254-313 | Success with an output if and only if it fits, is the data of the stored blocks, and these do not end in a malformed one |
| `Gzip.SuccessIsComplete` | mini-bootloader/src/boot_compress.c:254-313 | Success means a complete stored stream with that data if and only if a final stored block comes first |
| `Gzip.UnpackExactly` | mini-bootloader/src/boot_compress.c:327-354 | Unpacking succeeds with an output if and only if the image is some header followed by stored blocks with that data, which fits; and when that is a complete stream |
| `Gzip.TruncatedUnpacks` | mini-bootloader/src/boot_compress.c:254-313 | A header alone, a block that is not final, and one followed by a Huffman block all succeed |
| `Gzip.HuffmanUnpacksToNothing` | mini-bootloader/src/boot_compress.c:290-303 | A first block with Huffman codes succeeds with no output |
| `Gzip.DecompressContext.ParseHeader` | mini-bootloader/src/boot_compress.c:115-158 | Succeeds exactly on inputs with a complete header and stops right after it |
| `Gzip.DecompressContext.InflateBlocks` | mini-bootloader/src/boot_compress.c:254-313 | The block loop refines inflating, error cases included |
| `Gzip.DecompressContext.StoredData` | mini-bootloader/src/boot_compress.c:272-289 | One stored block is copied whole or refused |
| `Gzip.DecompressBzImage` | mini-bootloader/src/boot_compress.c:327-354 | Header and blocks together; the size is set only on success |
| `MeasuredBoot.ReplayedSnoc` | mini-bootloader/src/boot_secure.c:178-192 | One more event extends its own PCR and no other |
| `MeasuredBoot.DigestsForSomeEvent` | mini-bootloader/src/boot_secure.c:178-192 | A PCR has digests if and only if some event names it |
| `MeasuredBoot.EqualPcrsEqualDigests` | mini-bootloader/src/boot_secure.c:178-192 | Equally long digest sequences with one PCR value are equal, or exhibit a collision |
| `MeasuredBoot.LogsAgree` | mini-bootloader/src/boot_secure.c:227-248 | Without a collision, equal PCRs and equal event counts mean equal digest sequences |
| `MeasuredBoot.PcrBank.constructor` | mini-bootloader/src/boot_secure.c:172-176 | Every byte of every PCR is 0 and none is initialized |
| `MeasuredBoot.ShortenedDescription` | mini-bootloader/src/boot_secure.c:237-240 | Descriptions are kept up to 127 characters |
| `MeasuredBoot.PcrBank.Extend` | mini-bootloader/src/boot_secure.c:178-192 | Replaces one PCR by the hash of it and the digest, marks it, refuses bad indexes |
| `MeasuredBoot.PcrBank.Verify` | mini-bootloader/src/boot_secure.c:194-201 | True only for an initialized PCR with that value |
| `MeasuredBoot.BootMeasureLog.MeasureEvent` | mini-bootloader/src/boot_secure.c:227-248 | Keeps, after failed calls too, that every PCR is the fold over its logged events and is initialized exactly when there is one |
| `MeasuredBoot.BootMeasureLog.Verify` | mini-bootloader/src/boot_secure.c:250-254 | True exactly when the log has an event for the PCR and its replay gives the value |
| `CacheAsRam.OffsetInFlat` | mini-boot-process/src/cache_as_ram.c:81-84 | Line and place of an offset are those of the offset modulo the size |
| `CacheAsRam.ValueOfBytes8` | mini-boot-process/src/cache_as_ram.c:86-119 | Splitting a 64-bit value into bytes and joining them gives it back |
| `CacheAsRam.ValueOfEight` | mini-boot-process/src/cache_as_ram.c:86-119 | A value is its eight bytes, least significant first |
| `CacheAsRam.PatternStored` | mini-boot-process/src/cache_as_ram.c:59-62 | The test pattern's bytes at offset 0, as literals |
| `CacheAsRam.LoadedAfterStored` | mini-boot-process/src/cache_as_ram.c:86-160 | What was stored, wrapping included, is loaded again |
| `CacheAsRam.StoredLeaves` | mini-boot-process/src/cache_as_ram.c:106-160 | Bytes outside the stored range are unchanged |
| `CacheAsRam.WrappedOffset` | mini-boot-process/src/cache_as_ram.c:121-160 | Offsets that wrap at 2^64 keep their place |
| `CacheAsRam.CacheAsRam.Init` | mini-boot-process/src/cache_as_ram.c:12-34 | Zeroed flat memory, nothing touched, disabled |
| `CacheAsRam.CacheAsRam.Enable` | mini-boot-process/src/cache_as_ram.c:36-67 | Stores the test pattern at offset 0, which always reads back; no effect when already enabled |
| `CacheAsRam.CacheAsRam.Read` | mini-boot-process/src/cache_as_ram.c:86-104 | Reads what the flat array holds, 0 for lines never touched and while disabled |
| `CacheAsRam.CacheAsRam.Write` | mini-boot-process/src/cache_as_ram.c:106-119 | Stores into the flat array and touches that line only |
| `CacheAsRam.CacheAsRam.ReadBlock` | mini-boot-process/src/cache_as_ram.c:121-145 | Any span of the flat array, across lines and around its end |
| `CacheAsRam.CacheAsRam.WriteBlock` | mini-boot-process/src/cache_as_ram.c:147-160 | Stores any span and touches exactly its lines |
| `CacheAsRam.CacheAsRam.Teardown` | mini-boot-process/src/cache_as_ram.c:162-197 | Every touched line reaches DRAM byte for byte, all other DRAM bytes are unchanged, all lines are forgotten |
| `Madt.SumUpdated` | mini-boot-process/src/acpi_tables.c:12-19 | The byte sum after replacing one byte |
| `Madt.Checksum` | mini-boot-process/src/acpi_tables.c:12-19 | The byte that brings the sum to 0 modulo 256 |
| `Madt.ValidateChecksum` | mini-boot-process/src/acpi_tables.c:21-28 | True exactly for non-empty tables whose bytes sum to 0 modulo 256 |
| `Madt.Build` | mini-boot-process/src/acpi_tables.c:155-222 | Header and records in order, byte sum 0 modulo 256; 0 and no change when the buffer is too small; nothing written past the table |
| `Madt.HeaderLayout` | mini-boot-process/src/acpi_tables.c:36-51 | The 44 bytes of the table header, each at its place |
| `Madt.BuiltLapic` | mini-boot-process/src/acpi_tables.c:182-192 | Each LAPIC's fields at their places in a built table |
| `Madt.BuiltIoApic` | mini-boot-process/src/acpi_tables.c:194-205 | Each IOAPIC's fields at their places |
| `Madt.BuiltOverride` | mini-boot-process/src/acpi_tables.c:207-218 | Each override's fields at their places |
| `Madt.PutEntries` | mini-boot-process/src/acpi_tables.c:180-218 | The moving pointer lays the records out one after the other |
| `Madt.ParseEncoded` | mini-bios-uefi/src/uefi_acpi.c:151-207 | The parser steps over encoded records, collects each according to its type, and reads nothing after them |
| `Madt.ParseAnyRecords` | mini-bios-uefi/src/uefi_acpi.c:151-207 | Records of any types, and a tail that is none: the parser collects exactly the LAPICs and IOAPICs in order, up to 256 and 8, and reads nothing behind |
| `Madt.TableOfAnyRecords` | mini-bios-uefi/src/uefi_acpi.c:151-207 | The same for a whole table |
| `Madt.OtherRecordChangesNothing` | mini-bios-uefi/src/uefi_acpi.c:191-201 | Stepping over a record of another type changes nothing |
| `Madt.CollectEntries` | mini-bios-uefi/src/uefi_acpi.c:151-207 | From LAPICs, IOAPICs and overrides the first two lists are collected, up to the parser's limits |
| `Madt.BuildParseRoundTrip` | mini-bios-uefi/src/uefi_acpi.c:151-207 | Parsing a built table, whatever follows it, gives back the LAPICs and IOAPICs in order, the overrides stepped over |
| `Madt.BuildAndParse` | mini-boot-process/src/acpi_tables.c:155-222 | Building into a buffer, even one it fills, and parsing that buffer gives back the lists |
| `Madt.TenMoreAreEnough` | mini-bios-uefi/src/uefi_acpi.c:165-202 | With ten readable bytes after the table no record is read beyond the memory |
| `Madt.ShortRecordReadsBeyond` | mini-bios-uefi/src/uefi_acpi.c:171-180 | A LAPIC record of stated length 2 at the end of the memory is read beyond it if and only if there is room for a LAPIC |
| `Madt.AcpiSystemInfo.ParseMadt` | mini-bios-uefi/src/uefi_acpi.c:151-207 | The parse loop refines the record-by-record meaning of the bytes |
| `Madt.AcpiSystemInfo.KeepEntry` | mini-bios-uefi/src/uefi_acpi.c:171-201 | One record adds a LAPIC, an IOAPIC while there is room, or nothing |
| `FirmwareVolume.ParseHeader` | mini-boot-process/src/firmware_volume.c:44-56 | Accepts exactly zero vector, signature and a zero 16-bit header sum |
| `FirmwareVolume.IsValid` | mini-boot-process/src/firmware_volume.c:58-76 | Signature, and the header words sum to 0 modulo 2^16, 28 words when the length is 0 |
| `FirmwareVolume.HeaderBytes` | mini-boot-process/src/firmware_volume.c:44-76 | A valid header, byte by byte: 16 zeros, the signature, and byte sums that make the words add up to zero |
| `FirmwareVolume.ValidStates` | mini-boot-process/src/firmware_volume.c:94-101 | Valid files have state 0x07 or 0x87 |
| `FirmwareVolume.ScanAtIsScanRest` | mini-boot-process/src/firmware_volume.c:137-192 | Scanning by offset is scanning what is left of the volume |
| `FirmwareVolume.LaidOutApart` | mini-boot-process/src/firmware_volume.c:137-192 | Entries of a layout are aligned, have state 0x07 or 0x87, are strictly ordered and do not overlap |
| `FirmwareVolume.OnlyLastRunsOver` | mini-boot-process/src/firmware_volume.c:137-192 | Every entry but the last ends inside the volume |
| `FirmwareVolume.LastFileRunsOver` | mini-boot-process/src/firmware_volume.c:137-192 | A volume of 88 bytes whose only entry states 2^24 - 1 bytes |
| `FirmwareVolume.ScanIsCatalog` | mini-boot-process/src/firmware_volume.c:137-192 | Scanning any bytes gives such a layout within the file limit |
| `FirmwareVolume.HiddenFile` | mini-boot-process/src/firmware_volume.c:165-169 | A gap whose last bytes are misread hides the file behind it |
| `FirmwareVolume.ScanRoundTrip` | mini-boot-process/src/firmware_volume.c:137-192 | Scanning printed files of any states with gaps finds exactly those with state 0x07 or 0x87, in order and up to the limit, when the GUID bytes behind the gaps are erased values; only then, if gaps are before such files |
| `FirmwareVolume.UnlistedIsSteppedOver` | mini-boot-process/src/firmware_volume.c:171-188 | A file in another state gives no entry and the scan goes on behind it |
| `FirmwareVolume.DeletedFileIsNotListed` | mini-boot-process/src/firmware_volume.c:171-188 | A volume of 88 bytes whose only file is deleted has no entries |
| `FirmwareVolume.GapHidesFile` | mini-boot-process/src/firmware_volume.c:165-169 | A volume of 88 bytes with a valid header, whose only file eight erased bytes hide |
| `FirmwareVolume.VolumeRoundTrip` | mini-boot-process/src/firmware_volume.c:137-192 | The same for a whole volume with a valid header of any length, from the first multiple of 8 behind it |
| `FirmwareVolume.FvCatalog.ScanFiles` | mini-boot-process/src/firmware_volume.c:137-192 | The loop terminates, fills the catalog with the scan of the volume and returns its length; no entry for an invalid header |

## Left out

- Printing, dumps, file loading, demos and null-pointer checks; `calloc` and `malloc` are taken to succeed.
- The page allocator is a class of its own beside the region map; in C both share one structure without sharing a field.
- The C library's `qsort`: any sorting by base address; nothing depends on the order of ties except which region comes first among equal bases, which the returned ghost `sorted` fixes.
- BootMemory.BootMemoryMap.AddRegion: the E820 record decoding before it and the unused `acpi_ext` field are not modelled.
- BootMemory.CleanUpAndAsk: a sequence of calls that the source leaves to the user of the map; it is here to state what they do together.
- PageAllocator.BootPageAllocator.AllocAligned: requires at most `total_pages` pages and an exponent below 64, because the C loop bound is an unsigned difference and the shift is otherwise undefined; `addr & mask` is written as a remainder by a power of two.
- PageAllocator.BootPageAllocator.FreePages: requires that page index plus count does not wrap at 2^32; misaligned addresses act on the page they lie in, as in the code.
- SHA-256 rounds and constants: the compression function is any function, and the constant tables of the three files differ; the agreement of the three programs is about padding and buffering.
- CRC-32 claims about double and odd numbers of errors beyond a 33-bit window.
- Madt.AcpiSystemInfo.ParseMadt: requires the reads to stay inside the memory and a length not near 2^32, where the 32-bit offset would wrap; the printed summary is not modelled.
- FirmwareVolume.ParseHeader: requires a checksum range within the 56-byte header, because the C code otherwise reads past it.
- FirmwareVolume.IsValid: requires a checksum range within the 56-byte header, because the C code otherwise reads past it.
- FirmwareVolume.FvCatalog.ScanFiles: requires a checksum range within the header and a volume end below 2^32 - 2^25, because the C code otherwise reads past the header or wraps its 32-bit offset; a file's size is not compared with the volume end, as in the code.
- FirmwareVolume.ScanRoundTrip: for a gap before a file that is not to be listed only one direction, because a scan that leaves the files there may, depending on their contents, come back to them.
- FirmwareVolume.VolumeRoundTrip: header fields other than zero vector, lengths, signature and checksum are any bytes.
- Gzip.DecompressBzImage: buffers below 0xFFFF_0000 bytes, because the C sums are 32 bits wide and unchecked; NLEN and the gzip trailer are ignored, as in the code.
- Dynamic and fixed Huffman codes, which the source does not implement, and its run-length decoder.
- MeasuredBoot.BootMeasureLog.MeasureEvent: the console output; the slot after the log is overwritten by failed calls, as in the code.
- CacheAsRam.CacheAsRam.Enable: requires unused lines to hold zeros, so enabling again after a teardown without initialization is not covered; hit and miss counters and the mode field are left out.
- CacheAsRam.CacheAsRam.Read: accesses that cross the end of a line are excluded.
- CacheAsRam.CacheAsRam.Write: accesses that cross the end of a line are excluded.
- The attestation services, TPM simulations, boot phases, device models, ELF, PE and GPT loaders, SMBIOS tables, configuration parsing and boot policy.
