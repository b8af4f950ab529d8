# Nachos virtual memory: address translation and address spaces

This project is a Dafny model of the virtual-memory core of a Nachos teaching kernel. It covers two parts:

- **Address translation** (`code/machine/translate.cc`), in `translate.dfy` and `byteorder.dfy`.
  - `Machine::Translate` turns a virtual address into a physical one, through a linear page table or a TLB. It checks alignment, the page number, the read-only bit and the frame number, and it sets the `use` and `dirty` bits of the entry it uses.
  - `ReadMem` and `WriteMem` move 1, 2 or 4 bytes between registers and the little-endian main memory of the simulated MIPS machine.
  - The byte-order helpers `WordToHost`, `ShortToHost`, `WordToMachine` and `ShortToMachine` take the host's byte order as a parameter.
- **Address spaces** (`code/userprog/addrspace.cc`), in `addrspace.dfy`.
  - `SwapHeader` and the magic-number check of the NOFF header.
  - The number of pages an executable needs.
  - First-fit allocation of physical frames from the frame table `usedPhyPage`, which all address spaces share.
  - The copy of the code and initialised-data segments into main memory.
  - The destructor, which releases the frames.
  - `InitRegisters`, `SaveState`, `RestoreState` and `Execute`.

Each part is specified by functions on values:

- `TranslateSpec` gives the outcome of one translation.
- `LoadValue`, `StoredBytes` and `Overwrite` describe memory contents.
- `FreeFrames`, `MarkFrames` and `PlaceSegments` describe a load.

The imperative members are proved against those functions:

- the `Machine` methods `Translate`, `ReadMem` and `WriteMem`;
- the `AddrSpace` methods `Load`, `Deallocate` and `InitRegisters`.

Lemmas state the properties of the functions. Among them:

- each exception case of translation;
- the fact that a successful translation changes only its own entry and gives the same result when repeated;
- reading back a written value;
- first-fit allocation;
- giving frames back after a load;
- where segment bytes land in memory.

C `int` values that pass through memory are modelled by their 32-bit pattern (`bv32`). Main memory is an `array<bv8>`. The host's byte order, the number of physical frames and the TLB size are parameters of the machine. The frame table is an `array<bool>` passed to the operations that use it. The executable file is a value: `None` when it cannot be opened, otherwise the header as read and the file's bytes. The model follows the code in two places worth noting:

- In page-table mode, an entry whose `valid` bit is clear is used for the translation all the same. The code only prints a message there; its page-fault return is commented out.
- `Load` gives every page a frame when the program is loaded. There is no backing store, so a page never becomes non-resident.

## Model

| member | source | states |
|---|---|---|
| ByteOrder.WordToHost | code/machine/translate.cc:39-52 | the result holds the word's four bytes in reverse order on a big-endian host and in the same order otherwise |
| ByteOrder.ShortToHost | code/machine/translate.cc:54-65 | the result holds the halfword's two bytes swapped on a big-endian host and in the same order otherwise |
| ByteOrder.WordToMachine | code/machine/translate.cc:67-68 | the bytes are put in the same order as by `WordToHost`, and `WordToHost` turns the result back into the original word |
| ByteOrder.ShortToMachine | code/machine/translate.cc:70-71 | `ShortToHost` turns the result back into the original halfword |
| ByteOrder.LittleEndianHostIsIdentity | code/machine/translate.cc:39-71 | on a little-endian host all four normalisers return their argument unchanged |
| ByteOrder.NormalisersAreInvolutions | code/machine/translate.cc:39-65 | applying `WordToHost` or `ShortToHost` twice gives the argument back, on either host |
| ByteOrder.StoredWordIsLittleEndian | code/machine/translate.cc:67-68 | a word stored by the host after `WordToMachine` lies in memory least significant byte first, on either host |
| ByteOrder.LoadedWordIsLittleEndian | code/machine/translate.cc:112-115 | four memory bytes loaded by the host and passed through `WordToHost` are decoded as a little-endian word, on either host |
| ByteOrder.StoredShortIsLittleEndian | code/machine/translate.cc:70-71 | a halfword stored after `ShortToMachine` lies in memory low byte first, on either host |
| ByteOrder.LoadedShortIsLittleEndian | code/machine/translate.cc:107-110 | two memory bytes loaded and passed through `ShortToHost` are decoded as a little-endian halfword |
| Translate.FirstMatch | code/machine/translate.cc:244-251 | the TLB search result is the lowest index whose entry is valid and holds the page; no result means no such entry |
| Translate.TranslateSpec | code/machine/translate.cc:194-289 | a misaligned access is an address error; a fault never reports `NoException`; a success uses an entry of the table that is not read-only for a write; the physical address is frame × 128 + offset, and the access ends inside main memory |
| Translate.FrameBound | code/machine/translate.cc:282-285 | an aligned access in an existing frame ends within `NumPhysPages × PageSize`, so the assertion at the end of `Translate` always holds |
| Translate.MisalignedIsAddressError | code/machine/translate.cc:207-211 | a 4-byte access at an address not divisible by 4, or a 2-byte access at an odd address, raises `AddressErrorException` and changes no entry |
| Translate.PageBeyondTableIsAddressError | code/machine/translate.cc:224-231 | in page-table mode a page number at or beyond the table size raises `AddressErrorException` |
| Translate.PageTableUsesIndexedEntry | code/machine/translate.cc:232-239 | in page-table mode an in-range page uses the entry at index `vpn`, valid or not, and maps to its frame plus the offset |
| Translate.TlbLookup | code/machine/translate.cc:244-258 | in TLB mode the access raises `PageFaultException` exactly when no valid entry holds the page; otherwise it uses the lowest such entry |
| Translate.TlbHitIsMapped | code/machine/translate.cc:244-282 | in TLB mode, when the lowest valid entry holding the page is not read-only for a write and names an existing frame, the access is mapped through that entry to its frame × 128 + offset |
| Translate.WriteToReadOnlyRefused | code/machine/translate.cc:262-266 | a write through a read-only entry raises `ReadOnlyException` and changes no entry |
| Translate.FrameBeyondMemoryIsBusError | code/machine/translate.cc:267-274 | an entry naming a frame at or beyond `NumPhysPages` raises `BusErrorException` and changes no entry |
| Translate.Touch | code/machine/translate.cc:276-279 | after an access the entry has `use` set and `dirty` set exactly when it was set before or the access writes; nothing else changes |
| Translate.SuccessTouchesOnlyItsEntry | code/machine/translate.cc:276-282 | a successful translation sets `use` on its entry, sets `dirty` exactly when writing, and leaves every other entry unchanged |
| Translate.TranslateAgainAfterSuccess | code/machine/translate.cc:220-282 | after a successful access, the same access again (a read, or a write when the first was a write) translates through the same entry to the same physical address |
| Translate.StoredBytesAreLittleEndian | code/machine/translate.cc:151-167 | `WriteMem` stores the low byte, the low halfword or the word in little-endian order, whatever the host |
| Translate.StoreThenLoad | code/machine/translate.cc:100-119 | reading 1, 2 or 4 bytes where the same number were just written returns the written value cut to that size |
| Translate.Machine.SearchTlb | code/machine/translate.cc:244-251 | the loop returns the lowest index whose entry is valid and holds the page, or none when no entry does |
| Translate.Machine.Translate | code/machine/translate.cc:194-289 | the exception and physical address are those of `TranslateSpec`; on success only the used entry's `use`/`dirty` bits change; on failure the table is unchanged |
| Translate.Machine.StoreBytes | code/machine/translate.cc:151-163 | the bytes are written at consecutive physical addresses from the given one; every other byte of main memory is unchanged |
| Translate.Machine.ReadMem | code/machine/translate.cc:86-123 | fails exactly when translation fails; on success returns the value decoded from the bytes at the translated address; memory is not changed |
| Translate.Machine.WriteMem | code/machine/translate.cc:138-170 | fails exactly when translation fails, leaving memory unchanged; on success overwrites exactly the `size` bytes at the translated address with the value's bytes |
| Translate.Machine.WriteThenRead | code/machine/translate.cc:86-170 | a successful write followed by a read of the same address and size returns the written value cut to that size |
| UserProg.SwapHeader | code/userprog/addrspace.cc:33-46 | each of the ten header words (the magic number and the address, file offset and size of the three segments) holds the bytes of the word as read, reversed on a big-endian host; on a little-endian host the header is unchanged |
| UserProg.SwapHeaderTwice | code/userprog/addrspace.cc:33-46 | swapping a header twice gives it back |
| UserProg.NormalizedHeader | code/userprog/addrspace.cc:115-117 | the header `Load` goes on with is the header as read or the whole header swapped; it is the header as read when its magic number is already `NOFFMAGIC`, and always on a little-endian host |
| UserProg.AcceptedHeaders | code/userprog/addrspace.cc:115-118 | a header is accepted exactly when its magic number is `NOFFMAGIC` as read or after `WordToHost`; on a little-endian host only as read; a header already in host order is not swapped |
| UserProg.AddressSpaceBytes | code/userprog/addrspace.cc:122 | the sum of the three segment sizes and the 1024-byte stack, kept below 2^32 as in `unsigned int` arithmetic |
| UserProg.PageCount | code/userprog/addrspace.cc:125 | the page count is the fewest pages of 128 bytes that hold the address space |
| UserProg.PageCountStable | code/userprog/addrspace.cc:125-129 | in unbounded arithmetic, recomputing the count from the rounded-up size gives the same count |
| UserProg.LargeArrayProgramPages | code/test/testLargeArray.c:3-9 | segments of 432, 16 and 4096 bytes plus the stack make 5568 bytes, which is 44 pages |
| UserProg.PageCountAsWritten | code/userprog/addrspace.cc:125-129 | the double computation as written equals the fewest pages that hold the size whenever the size is at most 2^32 − 128, and is 0 above that |
| UserProg.PageCountAsWrittenWraps | code/userprog/addrspace.cc:125-129 | a total size of 0xFFFF_FF81 bytes gets 0 pages from the computation as written, instead of 2^25 |
| UserProg.FreeFramesAreFirstFit | code/userprog/addrspace.cc:132-143 | the free-frame list holds only free frames, in increasing order, and every free frame |
| UserProg.ScanFrom | code/userprog/addrspace.cc:135-136 | the inner scan stops at the first free frame at or after its start, or at `NumPhysPages` when every later frame is used |
| UserProg.ScanStopsAtNextFreeFrame | code/userprog/addrspace.cc:132-143 | while page `i` is mapped with the earlier pages' frames claimed, the scan from the previous page's frame stops at the `i`-th free frame |
| UserProg.FramesAsWritten | code/userprog/addrspace.cc:132-138 | the loop as written hands `n` pages frames at or after the start of the scan; each frame it hands out below `NumPhysPages` was free, each is larger than the ones before, and once no free frame is left every later page gets `NumPhysPages` |
| UserProg.FramesAsWrittenAreFirstFit | code/userprog/addrspace.cc:132-143 | when enough frames are free, the allocation loop as written gives page `i` the `i`-th free frame |
| UserProg.FrameScanRunsOffTheEnd | code/userprog/addrspace.cc:132-147 | on 8 frames with only frame 0 used, a program with three empty segments needs 8 pages for its stack, passes the `numPages <= NumPhysPages` assertion although only 7 frames are free, and its last page gets frame 8, which does not exist |
| UserProg.MarkFramesAt | code/userprog/addrspace.cc:83 | after marking a list of frames, a frame's flag is the marked value if it is in the list and as before otherwise |
| UserProg.ReleaseUndoesClaim | code/userprog/addrspace.cc:80-85 | releasing frames that were claimed while free restores the frame table exactly |
| UserProg.SegmentByteTranslates | code/userprog/addrspace.cc:170-172 | when the frames of the pages from the segment's first page to the page holding its byte `k` are consecutive, byte `k` of the copied segment lies where the loaded page table translates virtual address `virtualAddr + k` |
| UserProg.StackPointerBelowEnd | code/userprog/addrspace.cc:259 | the initial stack pointer is 16 bytes below the end of the address space, and is −16 for an empty one |
| UserProg.AddrSpace.constructor | code/userprog/addrspace.cc:56-73 | the page table has `NumPhysPages` entries; entry `i` maps page `i` to frame `i`, valid, with `use`, `dirty` and `readOnly` clear |
| UserProg.AddrSpace.CountFreeFrames | code/userprog/addrspace.cc:147 | the count equals the length of the free-frame list; `Load` checks it against the page count before claiming any frame |
| UserProg.AddrSpace.Load | code/userprog/addrspace.cc:97-201 | `CannotOpen` exactly when the file cannot be opened; `BadMagic` exactly when the normalised magic number is wrong; `OutOfFrames` exactly when fewer frames are free than pages are needed; on success, page `i` maps to the `i`-th free frame, those frames are claimed, later entries are unchanged, and memory holds the segments; on failure nothing changes |
| UserProg.AddrSpace.AllocatePages | code/userprog/addrspace.cc:132-143 | entries `0..n-1` map page `i` to the `i`-th free frame, valid, with `use`, `dirty` and `readOnly` clear; exactly those frames become used; other entries are unchanged |
| UserProg.AddrSpace.ScanUsed | code/userprog/addrspace.cc:135-136 | the loop stops where `ScanFrom` does |
| UserProg.AddrSpace.CopySegment | code/userprog/addrspace.cc:153-196 | a non-empty segment's file bytes, cut at the end of the file, are written in one piece from the frame of its first page plus its offset; nothing else in memory changes |
| UserProg.AddrSpace.Deallocate | code/userprog/addrspace.cc:80-85 | the frame of every page of the address space is marked free, and no other frame changes |
| UserProg.AddrSpace.LoadThenDeallocate | code/userprog/addrspace.cc:80-143 | loading a program and then destroying its address space leaves the frame table as it was |
| UserProg.AddrSpace.InitRegisters | code/userprog/addrspace.cc:241-261 | every register is 0 except `NextPCReg` (4) and `StackReg` (pages × 128 − 16, as a 32-bit `int`) |
| UserProg.AddrSpace.SaveState | code/userprog/addrspace.cc:271-275 | the address space takes the machine's page table and size |
| UserProg.AddrSpace.RestoreState | code/userprog/addrspace.cc:285-289 | on a machine in page-table mode, the machine's translation becomes this page table with `numPages` entries |
| UserProg.AddrSpace.RestoreThenSave | code/userprog/addrspace.cc:271-289 | a `SaveState` straight after a `RestoreState` leaves the address space as it was |
| UserProg.AddrSpace.Execute | code/userprog/addrspace.cc:212-229 | `CannotOpen` exactly when the file cannot be opened; a failed load leaves the registers, the translation, the page count, the page table, the frame table and main memory untouched; a successful one sets the page count of the normalised header, which is at most the number of free frames, maps page `i` to the `i`-th free frame and leaves later entries unchanged, claims exactly those frames, copies the code and initialised data into main memory as `Load` does, sets the initial registers and installs this page table; the machine stays well formed |

## Left out

- `RaiseException` is not part of this model. `ReadMem` and `WriteMem` return false where the source raises the exception first.
- `Machine::Run` and `ASSERTNOTREACHED` in `Execute` are not modelled; `Execute` returns once the registers and the page table are set.
- `DEBUG` output and console messages are not modelled.
- `delete pageTable` and `delete executable` are not modelled. Memory is managed by Dafny.
- The file system is not part of this model. `Open` becomes `Option<Executable>`; `ReadAt` becomes `FileRead`, which cuts a read at the end of the file.
- The header as read is given directly. A file shorter than the 40-byte header, which would leave header words unset, is not modelled.
- `machine.h`, `addrspace.h`, `noff.h` and `utility.h` are not part of this model. `NOFFMAGIC` (0xbadfad) and the register numbers (`StackReg` 29, `PCReg` 34, `NextPCReg` 35, `NumTotalRegs` 40) are taken as the standard Nachos values. `divRoundUp` is taken as the quotient rounded up.
- The `Machine` constructor only builds a machine to run the operations on; `machine.cc` is not part of this model.
- Translate.Machine.ReadMem, Translate.StoreThenLoad, Translate.Machine.WriteThenRead: a 1-byte read is zero-extended, so a byte read back is the written value masked to 8 bits. The source copies a `char`, whose sign extension depends on the host compiler.
- UserProg.AddrSpace.Load: segments outside the address space are not modelled. `Load` requires each non-empty segment to start in a page of the address space, at a non-negative virtual address and file offset, and to fit in main memory once copied. For a segment starting in a page `p` with `numPages <= p < NumPhysPages` the source reads a stale entry of its `NumPhysPages`-entry table (an identity entry from the constructor, or one left by an earlier load) and copies into that frame; for `p >= NumPhysPages` it indexes past the end of the table; a negative address is divided and reduced with C's truncating `/` and `%`; a copy past the end of main memory writes outside it.
- UserProg.AddrSpace.Load: checks the number of free frames before claiming any, and computes the page count once. Both are corrections; see Findings.
- UserProg.AddrSpace.Load: the copy of a segment whose pages got non-consecutive frames is modelled as written, in one piece. `SegmentByteTranslates` states when that copy is right.
- UserProg.AddrSpace.constructor: sets `numPages` to 0. The C++ constructor leaves it unset.
- UserProg.AddrSpace.SaveState: requires the machine to be in page-table mode. With a TLB installed, the source would copy the machine's null page table.
- UserProg.AddrSpace.RestoreState, UserProg.AddrSpace.RestoreThenSave, UserProg.AddrSpace.Execute: require the machine to be in page-table mode. With a TLB installed, the source sets the page table beside the TLB, and the next `Translate` halts on its assertion that at most one of them is set; the model's translation holds one or the other, so that state is not modelled.
- UserProg.AddrSpace.Load, UserProg.AddrSpace.Execute: the kernel halt on a header whose magic number is not `NOFFMAGIC` is modelled as the `BadMagic` status, after which `Execute` returns with nothing changed.
- UserProg.AddrSpace.Load, UserProg.AddrSpace.Execute: require the page table, the frame table and main memory to be three different arrays, which the C++ types guarantee.
- Frames of other address spaces, concurrency and context switches are not modelled beyond `SaveState` and `RestoreState`.
- `lab1/eject_cdrom.c` and `lab3/myioctl_driver.c` are unrelated to virtual memory and are not part of this model.

## Findings

| source | as written | input that shows it | evidently intended | confidence | as-written member | corrected member |
|---|---|---|---|---|---|---|
| code/userprog/addrspace.cc:132-147 | when no frame is left, the scan stops at `NumPhysPages`; that index is marked used (past the end of `usedPhyPage`) and mapped. The assertion at 147 compares pages with all frames, not with free ones | 8 frames with only frame 0 used, and a program whose three segments are empty (1024 bytes of stack, 8 pages): the pages get frames 1 to 8, and the assertion `8 <= 8` passes | refuse to load when fewer frames are free than pages are needed | high; not executed | UserProg.FrameScanRunsOffTheEnd | UserProg.AddrSpace.Load |
| code/userprog/addrspace.cc:125-129 | the count is rounded up, multiplied back by `PageSize` in 32-bit `unsigned int` arithmetic, and rounded up again | a total size of 0xFFFF_FF81 bytes (an uninitialised-data size of 0xFFFF_FB81): 2^25 × 128 wraps to 0, giving 0 pages | compute the page count once | medium (needs a corrupt header: read as a C `int`, 0xFFFF_FB81 is a size of −1151); not executed | UserProg.PageCountAsWrittenWraps | UserProg.PageCount |
