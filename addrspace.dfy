/**
 * Address spaces of user programs (Nachos `AddrSpace`): reading the NOFF
 * header, sizing the address space, giving each virtual page a physical
 * frame first-fit from the frame table shared by all address spaces,
 * copying the code and initialised data into main memory, releasing the
 * frames again, and handing the page table to and from the machine.
 *
 * The shared frame table (`usedPhyPage`, one flag per physical frame) is
 * an array passed to the operations that use it.  The executable file is
 * a value: `None` when it cannot be opened, otherwise the header words as
 * read and the file's bytes.
 */
module UserProg {
  import opened ByteOrder
  import opened Translate

  /** Bytes reserved for the user stack. */
  const UserStackSize: nat := 1024

  /** The magic number of a NOFF executable. */
  const NoffMagic: bv32 := 0xbadfad

  /** Where a segment lies in the address space and in the file, and its size (C `int`s, as bit patterns). */
  datatype Segment = Segment(virtualAddr: bv32, inFileAddr: bv32, size: bv32)

  datatype NoffHeader = NoffHeader(noffMagic: bv32, code: Segment, initData: Segment, uninitData: Segment)

  /** An executable that could be opened: its header as read from offset 0, and all its bytes. */
  datatype Executable = Executable(header: NoffHeader, contents: seq<bv8>)

  datatype LoadStatus =
    | Loaded
    | CannotOpen    // the file could not be opened: `Load` returns false
    | BadMagic      // the header is not NOFF in either byte order: the kernel halts on an assertion
    | OutOfFrames   // fewer free frames than pages (see Findings in the README)

  // ---------------------------------------------------------------------
  // The header.
  // ---------------------------------------------------------------------

  /** Each of the three words of `r` holds the bytes of the same word of `s` in host order. */
  predicate SegmentInHostOrder(hostBigEndian: bool, s: Segment, r: Segment)
  {
    && InHostOrder(hostBigEndian, s.virtualAddr, r.virtualAddr)
    && InHostOrder(hostBigEndian, s.inFileAddr, r.inFileAddr)
    && InHostOrder(hostBigEndian, s.size, r.size)
  }

  function SwapSegment(hostBigEndian: bool, s: Segment): (r: Segment)
    ensures SegmentInHostOrder(hostBigEndian, s, r)
  {
    Segment(WordToHost(hostBigEndian, s.virtualAddr), WordToHost(hostBigEndian, s.inFileAddr), WordToHost(hostBigEndian, s.size))
  }

  /** `SwapHeader`: every one of the ten header words through `WordToHost`. */
  function SwapHeader(hostBigEndian: bool, h: NoffHeader): (r: NoffHeader)
    ensures InHostOrder(hostBigEndian, h.noffMagic, r.noffMagic)
    ensures SegmentInHostOrder(hostBigEndian, h.code, r.code)
    ensures SegmentInHostOrder(hostBigEndian, h.initData, r.initData)
    ensures SegmentInHostOrder(hostBigEndian, h.uninitData, r.uninitData)
    ensures !hostBigEndian ==> r == h
  {
    NoffHeader(
      WordToHost(hostBigEndian, h.noffMagic),
      SwapSegment(hostBigEndian, h.code),
      SwapSegment(hostBigEndian, h.initData),
      SwapSegment(hostBigEndian, h.uninitData))
  }

  /** Swapping a segment twice gives it back. */
  lemma SwapSegmentTwice(hostBigEndian: bool, s: Segment)
    ensures SwapSegment(hostBigEndian, SwapSegment(hostBigEndian, s)) == s
  {
    NormalisersAreInvolutions(hostBigEndian, s.virtualAddr, 0);
    NormalisersAreInvolutions(hostBigEndian, s.inFileAddr, 0);
    NormalisersAreInvolutions(hostBigEndian, s.size, 0);
  }

  /** Swapping a header twice gives it back, on either host. */
  lemma SwapHeaderTwice(hostBigEndian: bool, h: NoffHeader)
    ensures SwapHeader(hostBigEndian, SwapHeader(hostBigEndian, h)) == h
  {
    NormalisersAreInvolutions(hostBigEndian, h.noffMagic, 0);
    SwapSegmentTwice(hostBigEndian, h.code);
    SwapSegmentTwice(hostBigEndian, h.initData);
    SwapSegmentTwice(hostBigEndian, h.uninitData);
  }

  /** The header `Load` goes on with: swapped when only the swapped magic number is NOFF's. */
  function NormalizedHeader(hostBigEndian: bool, raw: NoffHeader): (r: NoffHeader)
    ensures r == raw || r == SwapHeader(hostBigEndian, raw)
    ensures raw.noffMagic == NoffMagic || !hostBigEndian ==> r == raw
  {
    if raw.noffMagic != NoffMagic && WordToHost(hostBigEndian, raw.noffMagic) == NoffMagic then
      SwapHeader(hostBigEndian, raw)
    else
      raw
  }

  /** `Load` accepts a header exactly when its magic number is NOFF's as read or, on a big-endian host, byte-swapped. */
  lemma AcceptedHeaders(hostBigEndian: bool, raw: NoffHeader)
    ensures NormalizedHeader(hostBigEndian, raw).noffMagic == NoffMagic
      <==> raw.noffMagic == NoffMagic || WordToHost(hostBigEndian, raw.noffMagic) == NoffMagic
    ensures !hostBigEndian ==> (NormalizedHeader(hostBigEndian, raw).noffMagic == NoffMagic <==> raw.noffMagic == NoffMagic)
    ensures raw.noffMagic == NoffMagic ==> NormalizedHeader(hostBigEndian, raw) == raw
  {
  }

  /** A segment with a positive size (the C test `size > 0` on an `int`). */
  predicate NonEmpty(s: Segment)
  {
    0 < s.size < 0x8000_0000
  }

  // ---------------------------------------------------------------------
  // The number of pages.
  // ---------------------------------------------------------------------

  /** `divRoundUp`: the quotient rounded up. */
  function DivRoundUp(n: nat, s: nat): nat
    requires s > 0
  {
    n / s + (if n % s > 0 then 1 else 0)
  }

  /** Code, initialised and uninitialised data and the stack, summed in 32-bit unsigned arithmetic. */
  function AddressSpaceBytes(h: NoffHeader): (size: nat)
    ensures size < 0x1_0000_0000
  {
    (h.code.size as nat + h.initData.size as nat + h.uninitData.size as nat + UserStackSize) % 0x1_0000_0000
  }

  /** The number of pages of an address space of `size` bytes: the fewest pages that hold them. */
  function PageCount(size: nat): (n: nat)
    ensures n * PageSize >= size
    ensures n > 0 ==> (n - 1) * PageSize < size
  {
    DivRoundUp(size, PageSize)
  }

  /** Recomputing the page count from the rounded-up size (in unbounded arithmetic) gives the same count. */
  lemma PageCountStable(size: nat)
    ensures PageCount(PageCount(size) * PageSize) == PageCount(size)
  {
    var n := PageCount(size);
    assert (n * PageSize) % PageSize == 0;
    assert (n * PageSize) / PageSize == n;
  }

  /** The sizes of the large-array test program: 432 + 16 + 4096 + 1024 = 5568 bytes, 44 pages. */
  lemma LargeArrayProgramPages(h: NoffHeader)
    requires h.code.size == 432 && h.initData.size == 16 && h.uninitData.size == 4096
    ensures AddressSpaceBytes(h) == 5568
    ensures PageCount(AddressSpaceBytes(h)) == 44
  {
  }

  /**
   * The page count as the source computes it: rounded up, multiplied back
   * by the page size in 32-bit unsigned arithmetic, and rounded up again.
   */
  function PageCountAsWritten(size: nat): (n: nat)
    requires size < 0x1_0000_0000
    ensures size <= 0x1_0000_0000 - PageSize ==> n == PageCount(size)
    ensures size > 0x1_0000_0000 - PageSize ==> n == 0
  {
    PageCountAsWrittenAgrees(size);
    DivRoundUp((DivRoundUp(size, PageSize) * PageSize) % 0x1_0000_0000, PageSize)
  }

  /** Whenever the rounded-up size fits in 32 bits the second computation changes nothing; in the last page below 2^32 it wraps to 0. */
  lemma PageCountAsWrittenAgrees(size: nat)
    requires size < 0x1_0000_0000
    ensures var m := (DivRoundUp(size, PageSize) * PageSize) % 0x1_0000_0000;
      && (size <= 0x1_0000_0000 - PageSize ==> DivRoundUp(m, PageSize) == PageCount(size))
      && (size > 0x1_0000_0000 - PageSize ==> m == 0)
  {
    var n := PageCount(size);
    if size <= 0x1_0000_0000 - PageSize {
      assert n * PageSize < 0x1_0000_0000;
      PageCountStable(size);
    } else {
      assert size / PageSize == 0x200_0000 - 1;
      assert n == 0x200_0000;
    }
  }

  /**
   * Within the last page below 2^32 the multiplication wraps to 0 and the
   * address space gets no pages at all: a header whose segment sizes add up
   * to 0xFFFF_FF81 bytes (with the stack) is given 0 pages instead of 2^25.
   */
  lemma PageCountAsWrittenWraps(h: NoffHeader)
    requires h.code.size == 0 && h.initData.size == 0 && h.uninitData.size == 0xFFFF_FB81
    ensures AddressSpaceBytes(h) == 0xFFFF_FF81
    ensures PageCountAsWritten(AddressSpaceBytes(h)) == 0
    ensures PageCount(AddressSpaceBytes(h)) == 0x200_0000
  {
  }

  // ---------------------------------------------------------------------
  // First-fit frames.
  // ---------------------------------------------------------------------

  /** The frames at or after `from` that are free, in increasing order: all of them. */
  function FreeFrames(used: seq<bool>, from: nat): (r: seq<nat>)
    requires from <= |used|
    decreases |used| - from
    ensures |r| <= |used| - from
  {
    if from == |used| then []
    else if !used[from] then [from] + FreeFrames(used, from + 1)
    else FreeFrames(used, from + 1)
  }

  /** `FreeFrames` lists free frames only, in increasing order, and misses none. */
  lemma {:induction false} FreeFramesAreFirstFit(used: seq<bool>, from: nat)
    requires from <= |used|
    decreases |used| - from
    ensures var r := FreeFrames(used, from);
      && (forall k | 0 <= k < |r| :: from <= r[k] < |used| && !used[r[k]])
      && (forall k, m | 0 <= k < m < |r| :: r[k] < r[m])
      && (forall f | from <= f < |used| && !used[f] :: f in r)
  {
    if from < |used| {
      FreeFramesAreFirstFit(used, from + 1);
      var rest := FreeFrames(used, from + 1);
      if !used[from] {
        var r := [from] + rest;
        assert forall k | 1 <= k < |r| :: r[k] == rest[k - 1];
        assert forall f | from < f < |used| && !used[f] :: f in rest;
      }
    }
  }

  /**
   * The frame table after setting the flag of each frame in `frames` to
   * `value`, in order: `true` claims them, `false` releases them.  Frames
   * outside the table are skipped.
   */
  function MarkFrames(used: seq<bool>, frames: seq<nat>, value: bool): (r: seq<bool>)
    ensures |r| == |used|
    decreases |frames|
  {
    if frames == [] then used
    else
      var last := frames[|frames| - 1];
      var r := MarkFrames(used, frames[..|frames| - 1], value);
      if last < |r| then r[last := value] else r
  }

  /** Marking one more frame sets just that flag. */
  lemma MarkOneMore(used: seq<bool>, frames: seq<nat>, f: nat, value: bool)
    requires f < |used|
    ensures MarkFrames(used, frames + [f], value) == MarkFrames(used, frames, value)[f := value]
  {
    assert (frames + [f])[..|frames|] == frames;
  }

  /** After marking, a frame's flag is `value` if it was marked and as before otherwise. */
  lemma {:induction false} MarkFramesAt(used: seq<bool>, frames: seq<nat>, value: bool, k: nat)
    requires k < |used|
    ensures MarkFrames(used, frames, value)[k] == if k in frames then value else used[k]
    decreases |frames|
  {
    if frames != [] {
      var init := frames[..|frames| - 1];
      assert frames == init + [frames[|frames| - 1]];
      MarkFramesAt(used, init, value, k);
    }
  }

  /** Releasing frames that were claimed while free gives back the frame table as it was. */
  lemma ReleaseUndoesClaim(used: seq<bool>, frames: seq<nat>)
    requires forall k | 0 <= k < |frames| :: frames[k] < |used| && !used[frames[k]]
    ensures MarkFrames(MarkFrames(used, frames, true), frames, false) == used
  {
    var claimed := MarkFrames(used, frames, true);
    var r := MarkFrames(claimed, frames, false);
    forall k | 0 <= k < |used| ensures r[k] == used[k] {
      MarkFramesAt(used, frames, true, k);
      MarkFramesAt(claimed, frames, false, k);
      if k in frames {
        var q :| 0 <= q < |frames| && frames[q] == k;
      }
    }
  }

  /** The physical frames named by page-table entries. */
  function FramesOf(entries: seq<TranslationEntry>): (r: seq<nat>)
    ensures |r| == |entries| && forall i | 0 <= i < |entries| :: r[i] == entries[i].physicalPage
  {
    seq(|entries|, i requires 0 <= i < |entries| => entries[i].physicalPage)
  }

  /** The entry `Load` gives page `i` when it gets frame `frame`. */
  function LoadedEntry(i: nat, frame: nat): TranslationEntry
  {
    TranslationEntry(i, frame, true, false, false, false)
  }

  /**
   * While page `i` is being given a frame, the frames of pages before it
   * are claimed; scanning on from the frame of page `i - 1` over used frames
   * stops exactly at the `i`-th free frame.
   */
  lemma {:induction false} ScanStopsAtNextFreeFrame(used: seq<bool>, frames: seq<nat>, now: seq<bool>, i: nat, start: nat, j: nat)
    requires frames == FreeFrames(used, 0) && i < |frames|
    requires now == MarkFrames(used, frames[..i], true)
    requires i > 0 ==> start == frames[i - 1]
    requires i == 0 ==> start == 0
    requires start <= j <= |used|
    requires forall k | start <= k < j :: now[k]
    requires j < |used| ==> !now[j]
    ensures j == frames[i] && j < |used|
  {
    FreeFramesAreFirstFit(used, 0);
    var f := frames[i];
    assert f !in frames[..i];
    MarkFramesAt(used, frames[..i], true, f);
    assert !now[f];
    assert start <= f;
    assert j <= f;
    MarkFramesAt(used, frames[..i], true, j);
    assert !used[j] && j !in frames[..i];
    assert j in frames;
    var q :| 0 <= q < |frames| && frames[q] == j;
  }

  /** The scan over used frames: the first free frame at or after `j`, or `|used|` when there is none. */
  function ScanFrom(used: seq<bool>, j: nat): (k: nat)
    requires j <= |used|
    decreases |used| - j
    ensures j <= k <= |used|
    ensures forall m | j <= m < k :: used[m]
    ensures k < |used| ==> !used[k]
  {
    if j < |used| && used[j] then ScanFrom(used, j + 1) else j
  }

  /**
   * The frames the allocation loop as written hands out to `n` pages,
   * scanning on from `j`: with no free frame left the scan stops at
   * `|used|` and that index is given to the page anyway (the write to the
   * frame table past its end is not modelled).
   */
  function FramesAsWritten(used: seq<bool>, n: nat, j: nat): (r: seq<nat>)
    requires j <= |used|
    decreases n
    ensures |r| == n
    ensures forall k | 0 <= k < |r| :: j <= r[k] <= |used| && (r[k] < |used| ==> !used[r[k]])
    ensures forall k, m | 0 <= k < m < |r| :: r[k] < r[m] || r[m] == |used|
  {
    if n == 0 then []
    else
      var f := ScanFrom(used, j);
      [f] + FramesAsWritten(if f < |used| then used[f := true] else used, n - 1, f)
  }

  /** The free frames from `j` on start at the frame the scan from `j` stops at. */
  lemma {:induction false} ScanFindsFirstFreeFrame(used: seq<bool>, j: nat)
    requires j <= |used|
    decreases |used| - j
    ensures var k := ScanFrom(used, j);
      FreeFrames(used, j) == if k < |used| then [k] + FreeFrames(used, k + 1) else []
  {
    if j < |used| && used[j] {
      ScanFindsFirstFreeFrame(used, j + 1);
    }
  }

  /** Changing the flag of a frame before `from` does not change the free frames from `from` on. */
  lemma {:induction false} FreeFramesAfterUpdate(used: seq<bool>, f: nat, value: bool, from: nat)
    requires f < from <= |used|
    decreases |used| - from
    ensures FreeFrames(used[f := value], from) == FreeFrames(used, from)
  {
    if from < |used| {
      FreeFramesAfterUpdate(used, f, value, from + 1);
    }
  }

  /** When there are enough free frames, the loop as written hands out exactly the first `n` free frames. */
  lemma {:induction false} FramesAsWrittenAreFirstFit(used: seq<bool>, n: nat, j: nat)
    requires j <= |used| && n <= |FreeFrames(used, j)|
    decreases n
    ensures FramesAsWritten(used, n, j) == FreeFrames(used, j)[..n]
  {
    if n > 0 {
      var f := ScanFrom(used, j);
      ScanFindsFirstFreeFrame(used, j);
      var rest := used[f := true];
      FreeFramesAfterUpdate(used, f, true, f + 1);
      assert FreeFrames(rest, f) == FreeFrames(used, f + 1);
      FramesAsWrittenAreFirstFit(rest, n - 1, f);
    }
  }

  /**
   * On a machine with 8 frames of which only frame 0 is used, a program
   * whose three segments are empty still needs 8 pages for its stack.  It
   * passes the check that it has no more pages than the machine has frames,
   * although only 7 frames are free, and its last page is given frame 8,
   * which does not exist.
   */
  lemma FrameScanRunsOffTheEnd(used: seq<bool>, h: NoffHeader)
    requires |used| == 8 && used[0] && forall k | 1 <= k < 8 :: !used[k]
    requires h.code.size == 0 && h.initData.size == 0 && h.uninitData.size == 0
    ensures PageCount(AddressSpaceBytes(h)) == 8 <= |used|
    ensures |FreeFrames(used, 0)| < 8
    ensures FramesAsWritten(used, 8, 0)[7] == 8
  {
    assert AddressSpaceBytes(h) == UserStackSize;
    assert PageCount(UserStackSize) == 8;
    assert FreeFrames(used, 0) == FreeFrames(used, 1);
    LastPageRunsOff(used);
  }

  /** With frame 0 used, eight pages cannot all get frames below 8: the last one gets frame 8. */
  lemma LastPageRunsOff(used: seq<bool>)
    requires |used| == 8 && used[0]
    ensures FramesAsWritten(used, 8, 0)[7] == 8
  {
    var r := FramesAsWritten(used, 8, 0);
    if r[7] < 8 {
      assert forall a, b | 0 <= a < b < |r| :: r[a] < r[b];
      RisesFromFirstFree(r, 7);
      assert false;
    }
  }

  /** Strictly increasing frames that skip frame 0 put the `k`-th at `k + 1` or later. */
  lemma {:induction false} RisesFromFirstFree(r: seq<nat>, k: nat)
    requires k < |r| && r[0] >= 1
    requires forall a, b | 0 <= a < b < |r| :: r[a] < r[b]
    ensures r[k] >= k + 1
  {
    if k > 0 {
      RisesFromFirstFree(r, k - 1);
    }
  }

  // ---------------------------------------------------------------------
  // Placing the segments.
  // ---------------------------------------------------------------------

  /** What `ReadAt` delivers: up to `numBytes` bytes from `position`, cut at the end of the file. */
  function FileRead(contents: seq<bv8>, position: nat, numBytes: nat): (r: seq<bv8>)
    ensures |r| <= numBytes
  {
    if position >= |contents| then []
    else if position + numBytes <= |contents| then contents[position..position + numBytes]
    else contents[position..]
  }

  /** The bytes of a segment as read from the file. */
  function SegmentBytes(contents: seq<bv8>, s: Segment): seq<bv8>
  {
    FileRead(contents, s.inFileAddr as nat, s.size as nat)
  }

  /** The physical address the copy of a segment starts at: the frame of its first page plus its offset. */
  function SegmentDestination(s: Segment, frames: seq<nat>): nat
    requires s.virtualAddr as nat / PageSize < |frames|
  {
    frames[s.virtualAddr as nat / PageSize] * PageSize + s.virtualAddr as nat % PageSize
  }

  /**
   * The copy of a non-empty segment is defined: it starts in a page of the
   * address space, at a non-negative file offset, and every byte it writes
   * is inside main memory.
   */
  predicate SegmentFits(s: Segment, frames: seq<nat>, contents: seq<bv8>, memorySize: nat)
  {
    NonEmpty(s) ==>
      && s.virtualAddr < 0x8000_0000
      && s.inFileAddr < 0x8000_0000
      && s.virtualAddr as nat / PageSize < |frames|
      && SegmentDestination(s, frames) + |SegmentBytes(contents, s)| <= memorySize
  }

  /** Main memory after copying a segment, or unchanged for an empty one. */
  function PlaceSegment(mem: seq<bv8>, s: Segment, frames: seq<nat>, contents: seq<bv8>): (r: seq<bv8>)
    requires SegmentFits(s, frames, contents, |mem|)
    ensures |r| == |mem|
  {
    if NonEmpty(s) then Overwrite(mem, SegmentDestination(s, frames), SegmentBytes(contents, s)) else mem
  }

  /** Main memory after `Load`: the code, then the initialised data. */
  function PlaceSegments(mem: seq<bv8>, h: NoffHeader, frames: seq<nat>, contents: seq<bv8>): (r: seq<bv8>)
    requires SegmentFits(h.code, frames, contents, |mem|) && SegmentFits(h.initData, frames, contents, |mem|)
    ensures |r| == |mem|
  {
    PlaceSegment(PlaceSegment(mem, h.code, frames, contents), h.initData, frames, contents)
  }

  /**
   * `Load` with this executable and frame table either stops before copying
   * or copies segments that fit.
   */
  predicate LoadFits(executable: Option<Executable>, used: seq<bool>, hostBigEndian: bool, memorySize: nat)
  {
    executable.Some? ==>
      var h := NormalizedHeader(hostBigEndian, executable.value.header);
      var n := PageCount(AddressSpaceBytes(h));
      var free := FreeFrames(used, 0);
      (h.noffMagic == NoffMagic && n <= |free|) ==>
        && SegmentFits(h.code, free[..n], executable.value.contents, memorySize)
        && SegmentFits(h.initData, free[..n], executable.value.contents, memorySize)
  }

  /**
   * When the frames of the pages from the segment's first page to the page
   * of its byte `k` are consecutive, that byte lands where the page table translates its virtual
   * address.  The copy writes one contiguous physical range, so this is the
   * condition under which it is right.
   */
  lemma SegmentByteTranslates(s: Segment, frames: seq<nat>, contents: seq<bv8>, numPhysPages: nat, k: nat)
    requires NonEmpty(s) && s.virtualAddr < 0x8000_0000
    requires k < |SegmentBytes(contents, s)|
    requires s.virtualAddr as nat / PageSize < |frames|
    requires (s.virtualAddr as nat + k) / PageSize < |frames|
    requires forall p | s.virtualAddr as nat / PageSize <= p <= (s.virtualAddr as nat + k) / PageSize ::
      frames[p] == frames[s.virtualAddr as nat / PageSize] + (p - s.virtualAddr as nat / PageSize)
    requires forall p | 0 <= p < |frames| :: frames[p] < numPhysPages
    ensures var va := s.virtualAddr as nat + k;
      var entries := seq(|frames|, i requires 0 <= i < |frames| => LoadedEntry(i, frames[i]));
      va < 0x8000_0000 ==>
        TranslateSpec(PageTableView(entries, |frames|), numPhysPages, va, 1, false)
          == Mapped(va / PageSize, SegmentDestination(s, frames) + k)
  {
    var va := s.virtualAddr as nat + k;
    var v0 := s.virtualAddr as nat;
    var p0, p := v0 / PageSize, va / PageSize;
    if va < 0x8000_0000 {
      assert Unsigned(va) == va;
      assert p0 <= p;
      assert v0 == p0 * PageSize + v0 % PageSize;
      assert va == p * PageSize + va % PageSize;
      assert frames[p] * PageSize + va % PageSize == frames[p0] * PageSize + v0 % PageSize + k by {
        assert frames[p] == frames[p0] + (p - p0);
        assert frames[p] * PageSize == frames[p0] * PageSize + p * PageSize - p0 * PageSize;
      }
    }
  }

  // ---------------------------------------------------------------------
  // Address spaces.
  // ---------------------------------------------------------------------

  /** A value taken modulo 2^32 and read as a two's-complement C `int`. */
  function ToInt32(x: int): (r: Int32)
    ensures (r - x) % 0x1_0000_0000 == 0
  {
    var u := x % 0x1_0000_0000;
    if u < 0x8000_0000 then u else u - 0x1_0000_0000
  }

  /**
   * The registers a program starts with: all zero but the next PC (4) and
   * the stack pointer, 16 bytes below the end of the address space in
   * 32-bit arithmetic.
   */
  function InitialRegister(reg: nat, numPages: nat): int
  {
    if reg == NextPCReg then 4
    else if reg == StackReg then ToInt32(numPages * PageSize - 16)
    else 0
  }

  /** The stack pointer of an address space of fewer than 2^24 pages is 16 bytes below its end; with no pages it is -16. */
  lemma StackPointerBelowEnd(numPages: nat)
    ensures numPages < 0x100_0000 ==> InitialRegister(StackReg, numPages) == numPages * PageSize - 16
    ensures InitialRegister(StackReg, 0) == -16
  {
  }

  class AddrSpace {
    /** Physical frames of the machine this address space runs on. */
    const numPhysPages: nat
    var pageTable: array<TranslationEntry>
    var numPages: nat

    /** The page table, the frame table and main memory are three different arrays. */
    predicate Separate(usedPhyPage: array<bool>, machine: Machine)
      reads this, machine
    {
      && pageTable as object != usedPhyPage as object
      && pageTable as object != machine.mainMemory as object
      && usedPhyPage as object != machine.mainMemory as object
    }

    /** An identity page table over all physical frames; no frame is claimed. */
    constructor (numPhysPages: nat)
      ensures this.numPhysPages == numPhysPages
      ensures fresh(pageTable) && pageTable.Length == numPhysPages && numPages == 0
      ensures forall i | 0 <= i < numPhysPages :: pageTable[i] == TranslationEntry(i, i, true, false, false, false)
    {
      this.numPhysPages := numPhysPages;
      numPages := 0;
      var table := new TranslationEntry[numPhysPages];
      for i := 0 to numPhysPages
        invariant forall k | 0 <= k < i :: table[k] == TranslationEntry(k, k, true, false, false, false)
      {
        table[i] := TranslationEntry(i, i, true, false, false, false);
      }
      pageTable := table;
    }

    /** The number of free frames. */
    static method CountFreeFrames(usedPhyPage: array<bool>) returns (count: nat)
      ensures count == |FreeFrames(usedPhyPage[..], 0)|
    {
      count := 0;
      var j := usedPhyPage.Length;
      while j > 0
        invariant 0 <= j <= usedPhyPage.Length
        invariant count == |FreeFrames(usedPhyPage[..], j)|
      {
        j := j - 1;
        if !usedPhyPage[j] {
          count := count + 1;
        }
      }
    }

    /**
     * Loads a program: checks the header, sizes the address space, gives
     * page `i` the `i`-th free frame, initialises its entry and copies the
     * code and initialised data.  On any failure nothing changes.
     */
    method Load(executable: Option<Executable>, usedPhyPage: array<bool>, machine: Machine) returns (status: LoadStatus)
      requires pageTable.Length == numPhysPages == usedPhyPage.Length == machine.numPhysPages
      requires Separate(usedPhyPage, machine)
      requires numPages <= pageTable.Length
      requires machine.Valid()
      requires LoadFits(executable, usedPhyPage[..], machine.hostBigEndian, machine.mainMemory.Length)
      modifies this`numPages, pageTable, usedPhyPage, machine.mainMemory
      ensures numPages <= pageTable.Length
      ensures status == CannotOpen <==> executable.None?
      ensures executable.Some? ==>
        var h := NormalizedHeader(machine.hostBigEndian, executable.value.header);
        var n := PageCount(AddressSpaceBytes(h));
        && (status == BadMagic <==> h.noffMagic != NoffMagic)
        && (status == OutOfFrames <==> h.noffMagic == NoffMagic && |FreeFrames(old(usedPhyPage[..]), 0)| < n)
        && (status == Loaded ==>
              && n <= |FreeFrames(old(usedPhyPage[..]), 0)|
              && var frames := FreeFrames(old(usedPhyPage[..]), 0)[..n];
              && numPages == n
              && (forall i | 0 <= i < n :: pageTable[i] == LoadedEntry(i, frames[i]))
              && (forall i | n <= i < pageTable.Length :: pageTable[i] == old(pageTable[i]))
              && usedPhyPage[..] == MarkFrames(old(usedPhyPage[..]), frames, true)
              && machine.mainMemory[..] == PlaceSegments(old(machine.mainMemory[..]), h, frames, executable.value.contents))
      ensures status != Loaded ==>
        && numPages == old(numPages)
        && pageTable[..] == old(pageTable[..])
        && usedPhyPage[..] == old(usedPhyPage[..])
        && machine.mainMemory[..] == old(machine.mainMemory[..])
    {
      if executable.None? {
        return CannotOpen;
      }
      var noffH := executable.value.header;
      if noffH.noffMagic != NoffMagic && WordToHost(machine.hostBigEndian, noffH.noffMagic) == NoffMagic {
        noffH := SwapHeader(machine.hostBigEndian, noffH);
      }
      if noffH.noffMagic != NoffMagic {
        return BadMagic;
      }
      var size := AddressSpaceBytes(noffH);
      var pages := PageCount(size);
      var free := CountFreeFrames(usedPhyPage);
      if free < pages {
        return OutOfFrames;
      }
      ghost var frames := FreeFrames(usedPhyPage[..], 0)[..pages];
      numPages := pages;
      AllocatePages(usedPhyPage, numPages);
      assert FramesOf(pageTable[..numPages]) == frames;
      CopySegment(machine, noffH.code, executable.value.contents);
      CopySegment(machine, noffH.initData, executable.value.contents);
      return Loaded;
    }

    /** Gives page `i` (for `i < n`) the `i`-th free frame, scanning the frame table once from the start. */
    method AllocatePages(usedPhyPage: array<bool>, n: nat)
      requires pageTable.Length == usedPhyPage.Length && pageTable as object != usedPhyPage as object
      requires n <= |FreeFrames(usedPhyPage[..], 0)|
      modifies pageTable, usedPhyPage
      ensures var frames := FreeFrames(old(usedPhyPage[..]), 0)[..n];
        && (forall i | 0 <= i < n :: pageTable[i] == LoadedEntry(i, frames[i]))
        && (forall i | n <= i < pageTable.Length :: pageTable[i] == old(pageTable[i]))
        && usedPhyPage[..] == MarkFrames(old(usedPhyPage[..]), frames, true)
    {
      ghost var used0 := usedPhyPage[..];
      ghost var frames := FreeFrames(used0, 0);
      var i, j := 0, 0;
      while i < n
        invariant 0 <= i <= n
        invariant i > 0 ==> j == frames[i - 1]
        invariant i == 0 ==> j == 0
        invariant j <= usedPhyPage.Length
        invariant usedPhyPage[..] == MarkFrames(used0, frames[..i], true)
        invariant forall p | 0 <= p < i :: pageTable[p] == LoadedEntry(p, frames[p])
        invariant forall p | i <= p < pageTable.Length :: pageTable[p] == old(pageTable[p])
      {
        pageTable[i] := pageTable[i].(virtualPage := i);
        ghost var start, before := j, usedPhyPage[..];
        j := ScanUsed(usedPhyPage, j);
        assert j == frames[i] && j < usedPhyPage.Length by {
          ScanStopsAtNextFreeFrame(used0, frames, before, i, start, j);
        }
        usedPhyPage[j] := true;
        pageTable[i] := pageTable[i].(physicalPage := j, valid := true, use := false, dirty := false, readOnly := false);
        assert usedPhyPage[..] == MarkFrames(used0, frames[..i + 1], true) by {
          assert usedPhyPage[..] == before[j := true];
          MarkOneMore(used0, frames[..i], j, true);
          assert frames[..i + 1] == frames[..i] + [j];
        }
        i := i + 1;
      }
    }

    /** The scan over used frames: the first frame at or after `j` that is free, or the number of frames. */
    static method ScanUsed(usedPhyPage: array<bool>, j: nat) returns (k: nat)
      requires j <= usedPhyPage.Length
      ensures k == ScanFrom(usedPhyPage[..], j)
    {
      k := j;
      while k < usedPhyPage.Length && usedPhyPage[k]
        invariant j <= k <= usedPhyPage.Length
        invariant ScanFrom(usedPhyPage[..], j) == ScanFrom(usedPhyPage[..], k)
      {
        k := k + 1;
      }
    }

    /** Copies a non-empty segment from the file to the frame of its first page, at its offset, in one piece. */
    method CopySegment(machine: Machine, s: Segment, contents: seq<bv8>)
      requires numPages <= pageTable.Length
      requires pageTable as object != machine.mainMemory as object
      requires SegmentFits(s, FramesOf(pageTable[..numPages]), contents, machine.mainMemory.Length)
      modifies machine.mainMemory
      ensures machine.mainMemory[..] == PlaceSegment(old(machine.mainMemory[..]), s, FramesOf(pageTable[..numPages]), contents)
    {
      ghost var frames := FramesOf(pageTable[..numPages]);
      if NonEmpty(s) {
        var vaddr := s.virtualAddr as nat;
        var dest := pageTable[vaddr / PageSize].physicalPage * PageSize + vaddr % PageSize;
        assert dest == SegmentDestination(s, frames);
        machine.StoreBytes(dest, SegmentBytes(contents, s));
      }
    }

    /** The destructor: frees the frame of every page of the address space. */
    method Deallocate(usedPhyPage: array<bool>)
      requires numPages <= pageTable.Length
      requires forall i | 0 <= i < numPages :: pageTable[i].physicalPage < usedPhyPage.Length
      modifies usedPhyPage
      ensures usedPhyPage[..] == MarkFrames(old(usedPhyPage[..]), FramesOf(pageTable[..numPages]), false)
    {
      for i := 0 to numPages
        invariant usedPhyPage[..] == MarkFrames(old(usedPhyPage[..]), FramesOf(pageTable[..i]), false)
      {
        usedPhyPage[pageTable[i].physicalPage] := false;
        assert FramesOf(pageTable[..i + 1]) == FramesOf(pageTable[..i]) + [pageTable[i].physicalPage];
      }
    }

    /** Loading a program and destroying its address space leaves the frame table as it was. */
    method LoadThenDeallocate(executable: Option<Executable>, usedPhyPage: array<bool>, machine: Machine) returns (status: LoadStatus)
      requires pageTable.Length == numPhysPages == usedPhyPage.Length == machine.numPhysPages
      requires Separate(usedPhyPage, machine)
      requires numPages <= pageTable.Length && machine.Valid()
      requires LoadFits(executable, usedPhyPage[..], machine.hostBigEndian, machine.mainMemory.Length)
      modifies this`numPages, pageTable, usedPhyPage, machine.mainMemory
      ensures status == Loaded ==> usedPhyPage[..] == old(usedPhyPage[..])
    {
      status := Load(executable, usedPhyPage, machine);
      if status == Loaded {
        ghost var frames := FreeFrames(old(usedPhyPage[..]), 0)[..numPages];
        FreeFramesAreFirstFit(old(usedPhyPage[..]), 0);
        assert FramesOf(pageTable[..numPages]) == frames;
        Deallocate(usedPhyPage);
        ReleaseUndoesClaim(old(usedPhyPage[..]), frames);
      }
    }

    /** Sets the registers a program starts with. */
    method InitRegisters(machine: Machine)
      requires machine.Valid()
      modifies machine.registers
      ensures forall reg | 0 <= reg < NumTotalRegs :: machine.registers[reg] == InitialRegister(reg, numPages)
    {
      for reg := 0 to NumTotalRegs
        invariant forall r | 0 <= r < reg :: machine.registers[r] == 0
      {
        machine.registers[reg] := 0;
      }
      machine.registers[PCReg] := 0;
      machine.registers[NextPCReg] := 4;
      machine.registers[StackReg] := ToInt32(numPages * PageSize - 16);
    }

    /** On a switch away: adopt the page table installed in the machine. */
    method SaveState(machine: Machine)
      requires machine.translation.LinearPageTable?
      modifies this`pageTable, this`numPages
      ensures pageTable == machine.translation.table && numPages == machine.translation.size
    {
      pageTable := machine.translation.table;
      numPages := machine.translation.size;
    }

    /** On a switch back: install this address space's page table in the machine. */
    method RestoreState(machine: Machine)
      requires machine.Valid() && numPages <= pageTable.Length
      requires machine.translation.LinearPageTable?
      requires pageTable as object != machine.mainMemory as object
      modifies machine`translation
      ensures machine.translation == LinearPageTable(pageTable, numPages)
      ensures machine.Valid()
    {
      machine.translation := LinearPageTable(pageTable, numPages);
    }

    /** A `SaveState` straight after a `RestoreState` leaves the address space as it was. */
    method RestoreThenSave(machine: Machine)
      requires machine.Valid() && numPages <= pageTable.Length
      requires machine.translation.LinearPageTable?
      requires pageTable as object != machine.mainMemory as object
      modifies machine`translation, this`pageTable, this`numPages
      ensures pageTable == old(pageTable) && numPages == old(numPages)
      ensures machine.translation == LinearPageTable(pageTable, numPages)
    {
      RestoreState(machine);
      SaveState(machine);
    }

    /**
     * Runs a program: loads it and, when that succeeds, sets the initial
     * registers and installs the page table.  A failed load returns at once
     * with the registers and the machine's translation untouched.
     */
    method Execute(executable: Option<Executable>, usedPhyPage: array<bool>, machine: Machine) returns (status: LoadStatus)
      requires pageTable.Length == numPhysPages == usedPhyPage.Length == machine.numPhysPages
      requires Separate(usedPhyPage, machine)
      requires numPages <= pageTable.Length && machine.Valid()
      requires machine.translation.LinearPageTable?
      requires LoadFits(executable, usedPhyPage[..], machine.hostBigEndian, machine.mainMemory.Length)
      modifies this`numPages, pageTable, usedPhyPage, machine.mainMemory, machine.registers, machine`translation
      ensures status == CannotOpen <==> executable.None?
      ensures status != Loaded ==>
        && machine.registers[..] == old(machine.registers[..]) && machine.translation == old(machine.translation)
        && numPages == old(numPages)
        && pageTable[..] == old(pageTable[..])
        && usedPhyPage[..] == old(usedPhyPage[..])
        && machine.mainMemory[..] == old(machine.mainMemory[..])
      ensures status == Loaded ==>
        && executable.Some?
        && var h := NormalizedHeader(machine.hostBigEndian, executable.value.header);
        && h.noffMagic == NoffMagic
        && numPages == PageCount(AddressSpaceBytes(h))
        && numPages <= |FreeFrames(old(usedPhyPage[..]), 0)|
        && var frames := FreeFrames(old(usedPhyPage[..]), 0)[..numPages];
        && (forall i | 0 <= i < numPages :: pageTable[i] == LoadedEntry(i, frames[i]))
        && (forall i | numPages <= i < pageTable.Length :: pageTable[i] == old(pageTable[i]))
        && usedPhyPage[..] == MarkFrames(old(usedPhyPage[..]), frames, true)
        && machine.mainMemory[..] == PlaceSegments(old(machine.mainMemory[..]), h, frames, executable.value.contents)
        && (forall reg | 0 <= reg < NumTotalRegs :: machine.registers[reg] == InitialRegister(reg, numPages))
        && machine.translation == LinearPageTable(pageTable, numPages)
      ensures machine.Valid()
    {
      status := Load(executable, usedPhyPage, machine);
      if status != Loaded {
        return;
      }
      InitRegisters(machine);
      RestoreState(machine);
    }
  }
}
