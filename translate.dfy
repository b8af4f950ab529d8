/**
 * Address translation and the memory front end of the simulated machine
 * (Nachos `Machine::Translate`, `Machine::ReadMem`, `Machine::WriteMem`).
 *
 * The machine has exactly one translation structure installed, a linear
 * page table or a TLB; `Translation` makes that a structural fact.  The
 * outcome of one translation is given by the function `TranslateSpec` over
 * a value-level view of the installed table; the imperative `Translate`
 * method is proved against it, and the properties of translation are
 * stated about `TranslateSpec`.
 */
module Translate {
  import opened ByteOrder

  /** Bytes per page (and per physical frame). */
  const PageSize: nat := 128

  // Register numbering of the simulated MIPS processor.
  const StackReg: nat := 29
  const PCReg: nat := 34
  const NextPCReg: nat := 35
  const NumTotalRegs: nat := 40

  datatype Option<T> = None | Some(value: T)

  datatype ExceptionType =
    | NoException
    | PageFaultException
    | ReadOnlyException
    | BusErrorException
    | AddressErrorException

  /** One page's mapping: virtual page, physical frame and the status bits. */
  datatype TranslationEntry = TranslationEntry(
    virtualPage: nat,
    physicalPage: nat,
    valid: bool,
    readOnly: bool,
    use: bool,
    dirty: bool)

  /** The translation structure installed in the machine: a linear page table of `size` entries, or a TLB. */
  datatype Translation =
    | LinearPageTable(table: array<TranslationEntry>, size: nat)
    | Tlb(table: array<TranslationEntry>)

  /** The contents of the installed translation structure. */
  datatype TableView =
    | PageTableView(entries: seq<TranslationEntry>, size: nat)
    | TlbView(entries: seq<TranslationEntry>)

  /** The outcome of one translation: an exception, or the entry used and the physical address. */
  datatype Translated = Fault(exception: ExceptionType) | Mapped(index: nat, physAddr: nat)

  predicate WellFormedView(view: TableView)
  {
    view.PageTableView? ==> view.size <= |view.entries|
  }

  predicate AccessSize(size: int)
  {
    size == 1 || size == 2 || size == 4
  }

  /** A 4-byte access must be word aligned and a 2-byte access halfword aligned. */
  predicate Misaligned(virtAddr: Int32, size: int)
  {
    (size == 4 && Unsigned(virtAddr) % 4 != 0) || (size == 2 && Unsigned(virtAddr) % 2 != 0)
  }

  function PageNumber(virtAddr: Int32): nat
  {
    Unsigned(virtAddr) / PageSize
  }

  function PageOffset(virtAddr: Int32): nat
  {
    Unsigned(virtAddr) % PageSize
  }

  /** A TLB entry that translates virtual page `vpn`. */
  predicate Matches(e: TranslationEntry, vpn: nat)
  {
    e.valid && e.virtualPage == vpn
  }

  /** The lowest index at or after `from` whose entry translates `vpn`, if any. */
  function FirstMatch(entries: seq<TranslationEntry>, vpn: nat, from: nat): (r: Option<nat>)
    requires from <= |entries|
    decreases |entries| - from
    ensures r.Some? ==> from <= r.value < |entries| && Matches(entries[r.value], vpn)
    ensures r.Some? ==> forall k | from <= k < r.value :: !Matches(entries[k], vpn)
    ensures r.None? ==> forall k | from <= k < |entries| :: !Matches(entries[k], vpn)
  {
    if from == |entries| then None
    else if Matches(entries[from], vpn) then Some(from)
    else FirstMatch(entries, vpn, from + 1)
  }

  /**
   * The checks of a translation, first failure wins: alignment, the page
   * number (page-table mode) or a matching entry (TLB mode), the read-only
   * bit, the frame number.  In page-table mode an entry whose `valid` bit is
   * clear is used all the same: the page-fault return is disabled.
   */
  function TranslateSpec(view: TableView, numPhysPages: nat, virtAddr: Int32, size: int, writing: bool): (r: Translated)
    requires WellFormedView(view) && AccessSize(size)
    ensures Misaligned(virtAddr, size) ==> r == Fault(AddressErrorException)
    ensures r.Fault? ==> r.exception != NoException
    ensures r.Mapped? ==> r.index < |view.entries| && !(writing && view.entries[r.index].readOnly)
    ensures r.Mapped? ==> r.physAddr == view.entries[r.index].physicalPage * PageSize + PageOffset(virtAddr)
    ensures r.Mapped? ==> r.physAddr + size <= numPhysPages * PageSize
  {
    if Misaligned(virtAddr, size) then Fault(AddressErrorException)
    else
      var vpn := PageNumber(virtAddr);
      var lookup :=
        match view
        case PageTableView(entries, n) => if vpn >= n then Fault(AddressErrorException) else Mapped(vpn, 0)
        case TlbView(entries) =>
          var found := FirstMatch(entries, vpn, 0);
          if found.None? then Fault(PageFaultException) else Mapped(found.value, 0);
      if lookup.Fault? then lookup
      else
        var entry := view.entries[lookup.index];
        if entry.readOnly && writing then Fault(ReadOnlyException)
        else if entry.physicalPage >= numPhysPages then Fault(BusErrorException)
        else
          OffsetKeepsAlignment(Unsigned(virtAddr));
          FrameBound(entry.physicalPage, numPhysPages, PageOffset(virtAddr), size);
          Mapped(lookup.index, entry.physicalPage * PageSize + PageOffset(virtAddr))
  }

  /** The offset within a page is aligned exactly when the address is. */
  lemma OffsetKeepsAlignment(u: nat)
    ensures (u % PageSize) % 4 == u % 4 && (u % PageSize) % 2 == u % 2
  {
    OffsetKeepsWordAlignment(u);
    HalfwordFromWord(u % PageSize);
    HalfwordFromWord(u);
  }

  lemma {:induction false} OffsetKeepsWordAlignment(u: nat)
    ensures (u % PageSize) % 4 == u % 4
  {
    if u >= PageSize {
      OffsetKeepsWordAlignment(u - PageSize);
      assert (u - PageSize) % PageSize == u % PageSize;
      assert (u - PageSize) % 4 == u % 4;
    }
  }

  lemma HalfwordFromWord(x: nat)
    ensures x % 2 == (x % 4) % 2
  {
  }

  /** An aligned access of `size` bytes at `offset` inside frame `frame < numPhysPages` stays inside memory. */
  lemma FrameBound(frame: nat, numPhysPages: nat, offset: nat, size: int)
    requires frame < numPhysPages && offset < PageSize && AccessSize(size)
    requires size == 4 ==> offset % 4 == 0
    requires size == 2 ==> offset % 2 == 0
    ensures frame * PageSize + offset + size <= numPhysPages * PageSize
  {
    assert offset + size <= PageSize;
    assert (frame + 1) * PageSize <= numPhysPages * PageSize;
  }

  /** An entry after a successful access: `use` set, and `dirty` set when writing. */
  function Touch(e: TranslationEntry, writing: bool): (t: TranslationEntry)
    ensures t.use && t.dirty == (e.dirty || writing)
    ensures t.(use := e.use, dirty := e.dirty) == e
  {
    var used := e.(use := true);
    if writing then used.(dirty := true) else used
  }

  /** The entries after a translation with outcome `r`. */
  function EntriesAfter(entries: seq<TranslationEntry>, r: Translated, writing: bool): seq<TranslationEntry>
    requires r.Mapped? ==> r.index < |entries|
  {
    if r.Mapped? then entries[r.index := Touch(entries[r.index], writing)] else entries
  }

  /** The view after a translation with outcome `r`. */
  function ViewAfter(view: TableView, r: Translated, writing: bool): TableView
    requires r.Mapped? ==> r.index < |view.entries|
  {
    view.(entries := EntriesAfter(view.entries, r, writing))
  }

  // ---------------------------------------------------------------------
  // Properties of translation.
  // ---------------------------------------------------------------------

  /** A misaligned word or halfword access is an address error and changes no entry. */
  lemma MisalignedIsAddressError(view: TableView, numPhysPages: nat, virtAddr: Int32, size: int, writing: bool)
    requires WellFormedView(view) && AccessSize(size)
    requires (size == 4 && virtAddr % 4 != 0) || (size == 2 && virtAddr % 2 != 0)
    ensures var r := TranslateSpec(view, numPhysPages, virtAddr, size, writing);
      r == Fault(AddressErrorException) && EntriesAfter(view.entries, r, writing) == view.entries
  {
    assert Misaligned(virtAddr, size);
  }

  /** In page-table mode a page number beyond the table is an address error. */
  lemma PageBeyondTableIsAddressError(entries: seq<TranslationEntry>, size: nat, numPhysPages: nat, virtAddr: Int32, accessSize: int, writing: bool)
    requires size <= |entries| && AccessSize(accessSize) && !Misaligned(virtAddr, accessSize)
    requires PageNumber(virtAddr) >= size
    ensures TranslateSpec(PageTableView(entries, size), numPhysPages, virtAddr, accessSize, writing) == Fault(AddressErrorException)
  {
  }

  /** In page-table mode an in-range page uses the entry indexed by the page number, valid or not. */
  lemma PageTableUsesIndexedEntry(entries: seq<TranslationEntry>, size: nat, numPhysPages: nat, virtAddr: Int32, accessSize: int, writing: bool)
    requires size <= |entries| && AccessSize(accessSize) && !Misaligned(virtAddr, accessSize)
    requires PageNumber(virtAddr) < size
    requires !(writing && entries[PageNumber(virtAddr)].readOnly)
    requires entries[PageNumber(virtAddr)].physicalPage < numPhysPages
    ensures TranslateSpec(PageTableView(entries, size), numPhysPages, virtAddr, accessSize, writing)
      == Mapped(PageNumber(virtAddr), entries[PageNumber(virtAddr)].physicalPage * PageSize + PageOffset(virtAddr))
  {
  }

  /** In TLB mode the access faults exactly when no valid entry holds the page, and otherwise uses the lowest such entry. */
  lemma TlbLookup(entries: seq<TranslationEntry>, numPhysPages: nat, virtAddr: Int32, size: int, writing: bool)
    requires AccessSize(size) && !Misaligned(virtAddr, size)
    ensures var r := TranslateSpec(TlbView(entries), numPhysPages, virtAddr, size, writing);
      && (r == Fault(PageFaultException) <==> forall k | 0 <= k < |entries| :: !Matches(entries[k], PageNumber(virtAddr)))
      && (r.Mapped? ==> Matches(entries[r.index], PageNumber(virtAddr))
                        && forall k | 0 <= k < r.index :: !Matches(entries[k], PageNumber(virtAddr)))
  {
    var found := FirstMatch(entries, PageNumber(virtAddr), 0);
    if found.Some? {
      assert Matches(entries[found.value], PageNumber(virtAddr));
    }
  }

  /**
   * In TLB mode a hit on the lowest valid entry holding the page, which the
   * read-only and frame checks let through, maps the access through that
   * entry to its frame plus the offset.
   */
  lemma TlbHitIsMapped(entries: seq<TranslationEntry>, numPhysPages: nat, virtAddr: Int32, size: int, writing: bool, i: nat)
    requires AccessSize(size) && !Misaligned(virtAddr, size)
    requires i < |entries| && Matches(entries[i], PageNumber(virtAddr))
    requires forall k | 0 <= k < i :: !Matches(entries[k], PageNumber(virtAddr))
    requires !(writing && entries[i].readOnly)
    requires entries[i].physicalPage < numPhysPages
    ensures TranslateSpec(TlbView(entries), numPhysPages, virtAddr, size, writing)
      == Mapped(i, entries[i].physicalPage * PageSize + PageOffset(virtAddr))
  {
    var found := FirstMatch(entries, PageNumber(virtAddr), 0);
    assert found == Some(i);
  }

  /** A write through a read-only entry is refused and changes no entry. */
  lemma WriteToReadOnlyRefused(view: TableView, numPhysPages: nat, virtAddr: Int32, size: int, index: nat)
    requires WellFormedView(view) && AccessSize(size) && !Misaligned(virtAddr, size)
    requires view.PageTableView? ==> index == PageNumber(virtAddr) < view.size
    requires view.TlbView? ==> FirstMatch(view.entries, PageNumber(virtAddr), 0) == Some(index)
    requires index < |view.entries| && view.entries[index].readOnly
    ensures var r := TranslateSpec(view, numPhysPages, virtAddr, size, true);
      r == Fault(ReadOnlyException) && EntriesAfter(view.entries, r, true) == view.entries
  {
  }

  /** An entry naming a frame beyond physical memory is a bus error and changes no entry. */
  lemma FrameBeyondMemoryIsBusError(view: TableView, numPhysPages: nat, virtAddr: Int32, size: int, writing: bool, index: nat)
    requires WellFormedView(view) && AccessSize(size) && !Misaligned(virtAddr, size)
    requires view.PageTableView? ==> index == PageNumber(virtAddr) < view.size
    requires view.TlbView? ==> FirstMatch(view.entries, PageNumber(virtAddr), 0) == Some(index)
    requires index < |view.entries| && !(writing && view.entries[index].readOnly)
    requires view.entries[index].physicalPage >= numPhysPages
    ensures var r := TranslateSpec(view, numPhysPages, virtAddr, size, writing);
      r == Fault(BusErrorException) && EntriesAfter(view.entries, r, writing) == view.entries
  {
  }

  /**
   * A successful translation sets `use` on the entry it used, sets `dirty`
   * exactly when writing, and changes no other entry.
   */
  lemma SuccessTouchesOnlyItsEntry(view: TableView, numPhysPages: nat, virtAddr: Int32, size: int, writing: bool)
    requires WellFormedView(view) && AccessSize(size)
    requires TranslateSpec(view, numPhysPages, virtAddr, size, writing).Mapped?
    ensures var r := TranslateSpec(view, numPhysPages, virtAddr, size, writing);
      var after := EntriesAfter(view.entries, r, writing);
      && |after| == |view.entries|
      && after[r.index].use
      && after[r.index].dirty == (view.entries[r.index].dirty || writing)
      && after[r.index].(use := view.entries[r.index].use, dirty := view.entries[r.index].dirty) == view.entries[r.index]
      && forall k | 0 <= k < |after| && k != r.index :: after[k] == view.entries[k]
  {
  }

  /** Changing only `use`/`dirty` of entries leaves the lowest matching TLB entry where it was. */
  lemma {:induction false} FirstMatchIgnoresStatusBits(entries: seq<TranslationEntry>, index: nat, e: TranslationEntry, vpn: nat, from: nat)
    requires index < |entries| && from <= |entries|
    requires e.(use := entries[index].use, dirty := entries[index].dirty) == entries[index]
    ensures FirstMatch(entries[index := e], vpn, from) == FirstMatch(entries, vpn, from)
    decreases |entries| - from
  {
    if from < |entries| {
      FirstMatchIgnoresStatusBits(entries, index, e, vpn, from + 1);
    }
  }

  /** After a successful access, the same access again translates to the same place through the same entry. */
  lemma TranslateAgainAfterSuccess(view: TableView, numPhysPages: nat, virtAddr: Int32, size: int, writing: bool, writingAgain: bool)
    requires WellFormedView(view) && AccessSize(size)
    requires TranslateSpec(view, numPhysPages, virtAddr, size, writing).Mapped?
    requires writingAgain ==> writing
    ensures var r := TranslateSpec(view, numPhysPages, virtAddr, size, writing);
      TranslateSpec(ViewAfter(view, r, writing), numPhysPages, virtAddr, size, writingAgain) == r
  {
    var r := TranslateSpec(view, numPhysPages, virtAddr, size, writing);
    var after := ViewAfter(view, r, writing);
    if view.TlbView? {
      FirstMatchIgnoresStatusBits(view.entries, r.index, Touch(view.entries[r.index], writing), PageNumber(virtAddr), 0);
      assert FirstMatch(after.entries, PageNumber(virtAddr), 0) == FirstMatch(view.entries, PageNumber(virtAddr), 0);
    }
  }

  // ---------------------------------------------------------------------
  // The memory front end on sequences of bytes.
  // ---------------------------------------------------------------------

  /** The bits of a C `int` an access of `size` bytes keeps. */
  function SizeMask(size: int): bv32
    requires AccessSize(size)
  {
    if size == 1 then 0xff else if size == 2 then 0xffff else 0xffff_ffff
  }

  /** The value `ReadMem` delivers from the `size` bytes at `pa`: a byte, or a halfword or word through the host's load and `...ToHost`. */
  function LoadValue(mem: seq<bv8>, pa: nat, size: int, hostBigEndian: bool): bv32
    requires AccessSize(size) && pa + size <= |mem|
  {
    if size == 1 then mem[pa] as bv32
    else if size == 2 then ShortToHost(hostBigEndian, HostLoadShort(hostBigEndian, mem[pa], mem[pa + 1])) as bv32
    else WordToHost(hostBigEndian, HostLoadWord(hostBigEndian, mem[pa], mem[pa + 1], mem[pa + 2], mem[pa + 3]))
  }

  /** The bytes `WriteMem` stores for `value`: its low byte, or its low halfword or the word through `...ToMachine` and the host's store. */
  function StoredBytes(size: int, hostBigEndian: bool, value: bv32): (b: seq<bv8>)
    requires AccessSize(size)
    ensures |b| == size
  {
    if size == 1 then [(value & 0xff) as bv8]
    else if size == 2 then HostStoreShort(hostBigEndian, ShortToMachine(hostBigEndian, (value & 0xffff) as bv16))
    else HostStoreWord(hostBigEndian, WordToMachine(hostBigEndian, value))
  }

  /** `mem` with `bytes` written from address `pa` on. */
  function Overwrite(mem: seq<bv8>, pa: nat, bytes: seq<bv8>): (r: seq<bv8>)
    requires pa + |bytes| <= |mem|
    ensures |r| == |mem|
    ensures r[pa..pa + |bytes|] == bytes
    ensures forall k | 0 <= k < |bytes| :: r[pa + k] == bytes[k]
    ensures forall k | 0 <= k < |mem| && !(pa <= k < pa + |bytes|) :: r[k] == mem[k]
  {
    mem[..pa] + bytes + mem[pa + |bytes|..]
  }

  /** Memory holds values in the machine's little-endian format, whatever the host's byte order. */
  lemma StoredBytesAreLittleEndian(size: int, hostBigEndian: bool, value: bv32)
    requires AccessSize(size)
    ensures size == 4 ==> StoredBytes(size, hostBigEndian, value) == LittleEndianWord(value)
    ensures size == 2 ==> StoredBytes(size, hostBigEndian, value) == LittleEndianShort((value & 0xffff) as bv16)
    ensures size == 1 ==> StoredBytes(size, hostBigEndian, value) == [WordByte(value, 0)]
  {
    if size == 4 {
      StoredWordIsLittleEndian(hostBigEndian, value);
    } else if size == 2 {
      StoredShortIsLittleEndian(hostBigEndian, (value & 0xffff) as bv16);
    }
  }

  /** Reading back what was written yields the written value cut to the access size. */
  lemma StoreThenLoad(mem: seq<bv8>, pa: nat, size: int, hostBigEndian: bool, value: bv32)
    requires AccessSize(size) && pa + size <= |mem|
    ensures LoadValue(Overwrite(mem, pa, StoredBytes(size, hostBigEndian, value)), pa, size, hostBigEndian)
      == value & SizeMask(size)
  {
    if size == 4 {
      StoreThenLoadWord(mem, pa, size, hostBigEndian, value);
    } else if size == 2 {
      StoreThenLoadShort(mem, pa, size, hostBigEndian, value);
    } else {
      StoreThenLoadByte(mem, pa, size, hostBigEndian, value);
    }
  }

  lemma StoreThenLoadByte(mem: seq<bv8>, pa: nat, size: int, hostBigEndian: bool, value: bv32)
    requires size == 1 && pa + size <= |mem|
    ensures LoadValue(Overwrite(mem, pa, StoredBytes(size, hostBigEndian, value)), pa, size, hostBigEndian) == value & SizeMask(size)
  {
    var mem' := Overwrite(mem, pa, StoredBytes(size, hostBigEndian, value));
    assert mem'[pa] == ((value & 0xff) as bv8);
    ByteRoundTrip(value);
  }

  lemma StoreThenLoadWord(mem: seq<bv8>, pa: nat, size: int, hostBigEndian: bool, value: bv32)
    requires size == 4 && pa + size <= |mem|
    ensures LoadValue(Overwrite(mem, pa, StoredBytes(size, hostBigEndian, value)), pa, size, hostBigEndian) == value & SizeMask(size)
  {
    var b := StoredBytes(size, hostBigEndian, value);
    var mem' := Overwrite(mem, pa, b);
    assert mem'[pa] == b[0] && mem'[pa + 1] == b[1] && mem'[pa + 2] == b[2] && mem'[pa + 3] == b[3];
    WordBytesRoundTrip(hostBigEndian, value);
  }

  lemma StoreThenLoadShort(mem: seq<bv8>, pa: nat, size: int, hostBigEndian: bool, value: bv32)
    requires size == 2 && pa + size <= |mem|
    ensures LoadValue(Overwrite(mem, pa, StoredBytes(size, hostBigEndian, value)), pa, size, hostBigEndian) == value & SizeMask(size)
  {
    var b := StoredBytes(size, hostBigEndian, value);
    var mem' := Overwrite(mem, pa, b);
    assert mem'[pa] == b[0] && mem'[pa + 1] == b[1];
    ShortBytesRoundTrip(hostBigEndian, value);
  }

  lemma ByteRoundTrip(value: bv32)
    ensures ((value & 0xff) as bv8) as bv32 == value & 0xff
  {
  }

  lemma WordBytesRoundTrip(hostBigEndian: bool, value: bv32)
    ensures var b := StoredBytes(4, hostBigEndian, value);
      WordToHost(hostBigEndian, HostLoadWord(hostBigEndian, b[0], b[1], b[2], b[3])) == value
  {
    StoredWordIsLittleEndian(hostBigEndian, value);
    var b := LittleEndianWord(value);
    LoadedWordIsLittleEndian(hostBigEndian, b[0], b[1], b[2], b[3]);
    LittleEndianWordRoundTrip(value);
  }

  lemma ShortBytesRoundTrip(hostBigEndian: bool, value: bv32)
    ensures var b := StoredBytes(2, hostBigEndian, value);
      ShortToHost(hostBigEndian, HostLoadShort(hostBigEndian, b[0], b[1])) as bv32 == value & 0xffff
  {
    var half := (value & 0xffff) as bv16;
    StoredShortIsLittleEndian(hostBigEndian, half);
    var b := LittleEndianShort(half);
    LoadedShortIsLittleEndian(hostBigEndian, b[0], b[1]);
    LittleEndianShortRoundTrip(half);
    assert half as bv32 == value & 0xffff;
  }

  // ---------------------------------------------------------------------
  // The machine.
  // ---------------------------------------------------------------------

  class Machine {
    /** Physical frames of main memory. */
    const numPhysPages: nat
    /** Entries of the TLB, when one is installed. */
    const tlbSize: nat
    /** The byte order of the host running the simulator. */
    const hostBigEndian: bool

    var mainMemory: array<bv8>
    var translation: Translation
    var registers: array<int>

    ghost predicate Valid()
      reads this
    {
      && numPhysPages > 0
      && mainMemory.Length == numPhysPages * PageSize
      && registers.Length == NumTotalRegs
      && (translation.LinearPageTable? ==> translation.size <= translation.table.Length)
      && (translation.Tlb? ==> translation.table.Length == tlbSize)
      && translation.table as object != mainMemory as object
    }

    /** The contents of the installed translation structure. */
    ghost function View(): (v: TableView)
      reads this, translation.table
      requires Valid()
      ensures WellFormedView(v)
    {
      match translation
      case LinearPageTable(table, size) => PageTableView(table[..], size)
      case Tlb(table) => TlbView(table[..])
    }

    /**
     * A machine with zeroed memory and registers, and either a TLB whose
     * entries are all invalid or an empty page table.
     */
    constructor (numPhysPages: nat, tlbSize: nat, hostBigEndian: bool, useTlb: bool)
      requires numPhysPages > 0
      ensures Valid()
      ensures this.numPhysPages == numPhysPages && this.tlbSize == tlbSize && this.hostBigEndian == hostBigEndian
      ensures useTlb <==> translation.Tlb?
      ensures fresh(mainMemory) && fresh(registers) && fresh(translation.table)
    {
      this.numPhysPages := numPhysPages;
      this.tlbSize := tlbSize;
      this.hostBigEndian := hostBigEndian;
      mainMemory := new bv8[numPhysPages * PageSize](_ => 0);
      registers := new int[NumTotalRegs](_ => 0);
      if useTlb {
        var tlb := new TranslationEntry[tlbSize](_ => TranslationEntry(0, 0, false, false, false, false));
        translation := Tlb(tlb);
      } else {
        var empty := new TranslationEntry[0];
        translation := LinearPageTable(empty, 0);
      }
    }

    /** The lowest-indexed TLB entry that is valid and holds page `vpn`. */
    static method SearchTlb(tlb: array<TranslationEntry>, vpn: nat) returns (found: Option<nat>)
      ensures found.Some? ==> found.value < tlb.Length && Matches(tlb[found.value], vpn)
      ensures found.Some? ==> forall k | 0 <= k < found.value :: !Matches(tlb[k], vpn)
      ensures found.None? ==> forall k | 0 <= k < tlb.Length :: !Matches(tlb[k], vpn)
    {
      var i := 0;
      while i < tlb.Length
        invariant 0 <= i <= tlb.Length
        invariant forall k | 0 <= k < i :: !Matches(tlb[k], vpn)
      {
        if tlb[i].valid && tlb[i].virtualPage == vpn {
          return Some(i);
        }
        i := i + 1;
      }
      return None;
    }

    /**
     * Translates `virtAddr` for an access of `size` bytes.  On success sets
     * the entry's `use` bit (and `dirty` when writing) and returns the
     * physical address; otherwise returns the exception and changes nothing.
     */
    method Translate(virtAddr: Int32, size: int, writing: bool) returns (exception: ExceptionType, physAddr: int)
      requires Valid() && AccessSize(size)
      modifies translation.table
      ensures var r := TranslateSpec(old(View()), numPhysPages, virtAddr, size, writing);
        && (exception == NoException <==> r.Mapped?)
        && (r.Fault? ==> exception == r.exception)
        && (r.Mapped? ==> physAddr == r.physAddr)
        && View() == ViewAfter(old(View()), r, writing)
    {
      ghost var r := TranslateSpec(View(), numPhysPages, virtAddr, size, writing);
      if (size == 4 && Unsigned(virtAddr) % 4 != 0) || (size == 2 && Unsigned(virtAddr) % 2 != 0) {
        return AddressErrorException, 0;
      }
      var vpn := Unsigned(virtAddr) / PageSize;
      var offset := Unsigned(virtAddr) % PageSize;
      var entries := translation.table;
      var index: nat;
      match translation {
        case LinearPageTable(_, pageTableSize) =>
          if vpn >= pageTableSize {
            return AddressErrorException, 0;
          }
          // An invalid entry only draws a diagnostic; the translation goes on with it.
          index := vpn;
        case Tlb(tlb) =>
          var found := SearchTlb(tlb, vpn);
          if found.None? {
            return PageFaultException, 0;
          }
          assert found == FirstMatch(tlb[..], vpn, 0);
          index := found.value;
      }
      var entry := entries[index];
      if entry.readOnly && writing {
        return ReadOnlyException, 0;
      }
      var pageFrame := entry.physicalPage;
      if pageFrame >= numPhysPages {
        return BusErrorException, 0;
      }
      entries[index] := entry.(use := true);
      if writing {
        entries[index] := entries[index].(dirty := true);
      }
      physAddr := pageFrame * PageSize + offset;
      exception := NoException;
      assert entries[..] == EntriesAfter(old(entries[..]), r, writing);
    }

    /** Writes `bytes` into main memory from physical address `pa` on. */
    method StoreBytes(pa: nat, bytes: seq<bv8>)
      requires pa + |bytes| <= mainMemory.Length
      modifies mainMemory
      ensures mainMemory[..] == Overwrite(old(mainMemory[..]), pa, bytes)
    {
      for k := 0 to |bytes|
        invariant forall m | 0 <= m < mainMemory.Length ::
          mainMemory[m] == if pa <= m < pa + k then bytes[m - pa] else old(mainMemory[m])
      {
        mainMemory[pa + k] := bytes[k];
      }
      assert mainMemory[..] == Overwrite(old(mainMemory[..]), pa, bytes);
    }

    /**
     * Reads `size` bytes at virtual address `addr`.  Fails, with memory
     * untouched, when translation fails.
     */
    method ReadMem(addr: Int32, size: int) returns (ok: bool, value: bv32)
      requires Valid() && AccessSize(size)
      modifies translation.table
      ensures var r := TranslateSpec(old(View()), numPhysPages, addr, size, false);
        && ok == r.Mapped?
        && (ok ==> value == LoadValue(mainMemory[..], r.physAddr, size, hostBigEndian))
        && View() == ViewAfter(old(View()), r, false)
    {
      ghost var r := TranslateSpec(View(), numPhysPages, addr, size, false);
      var exception, physicalAddress := Translate(addr, size, false);
      if exception != NoException {
        return false, 0;
      }
      if size == 1 {
        value := mainMemory[physicalAddress] as bv32;
      } else if size == 2 {
        var data := HostLoadShort(hostBigEndian, mainMemory[physicalAddress], mainMemory[physicalAddress + 1]);
        value := ShortToHost(hostBigEndian, data) as bv32;
      } else {
        var data := HostLoadWord(hostBigEndian, mainMemory[physicalAddress], mainMemory[physicalAddress + 1],
                                 mainMemory[physicalAddress + 2], mainMemory[physicalAddress + 3]);
        value := WordToHost(hostBigEndian, data);
      }
      ok := true;
    }

    /**
     * Writes the low `size` bytes of `value` at virtual address `addr`.
     * Fails, with memory untouched, when translation fails.
     */
    method WriteMem(addr: Int32, size: int, value: bv32) returns (ok: bool)
      requires Valid() && AccessSize(size)
      modifies translation.table, mainMemory
      ensures var r := TranslateSpec(old(View()), numPhysPages, addr, size, true);
        && ok == r.Mapped?
        && (ok ==> mainMemory[..] == Overwrite(old(mainMemory[..]), r.physAddr, StoredBytes(size, hostBigEndian, value)))
        && (!ok ==> mainMemory[..] == old(mainMemory[..]))
        && View() == ViewAfter(old(View()), r, true)
    {
      ghost var r := TranslateSpec(View(), numPhysPages, addr, size, true);
      var exception, physicalAddress := Translate(addr, size, true);
      if exception != NoException {
        return false;
      }
      assert physicalAddress == r.physAddr;
      StoreBytes(physicalAddress, StoredBytes(size, hostBigEndian, value));
      ok := true;
    }

    /** A write followed by a read of the same address and size returns the written value cut to that size. */
    method WriteThenRead(addr: Int32, size: int, value: bv32) returns (written: bool, readBack: bool, result: bv32)
      requires Valid() && AccessSize(size)
      modifies translation.table, mainMemory
      ensures written == TranslateSpec(old(View()), numPhysPages, addr, size, true).Mapped?
      ensures written ==> readBack && result == value & SizeMask(size)
      ensures !written ==> mainMemory[..] == old(mainMemory[..])
    {
      ghost var r := TranslateSpec(View(), numPhysPages, addr, size, true);
      readBack, result := false, 0;
      written := WriteMem(addr, size, value);
      if written {
        TranslateAgainAfterSuccess(old(View()), numPhysPages, addr, size, true, false);
        readBack, result := ReadMem(addr, size);
        StoreThenLoad(old(mainMemory[..]), r.physAddr, size, hostBigEndian, value);
      }
    }
  }
}
