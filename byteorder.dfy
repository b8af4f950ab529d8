/**
 * Byte-order normalisation between the simulated MIPS machine, which is
 * little endian, and the host that runs the simulator.  The host's byte
 * order is a parameter (`hostBigEndian`) instead of a compile-time switch.
 *
 * C `int` values that travel through memory are modelled by their 32-bit
 * two's-complement pattern (`bv32`); `Unsigned` gives the `(unsigned)` cast
 * of a C `int` as a mathematical integer.
 */
module ByteOrder {

  /** The range of a C `int` on the simulator's hosts. */
  type Int32 = x: int | -0x8000_0000 <= x < 0x8000_0000

  /** The C conversion `(unsigned) x` of a 32-bit `int`. */
  function Unsigned(x: Int32): (u: nat)
    ensures u < 0x1_0000_0000
    ensures u % 0x1_0000_0000 == x % 0x1_0000_0000
  {
    if x < 0 then x + 0x1_0000_0000 else x
  }

  /** `WordToHost`: a byte swap on a big-endian host, the identity otherwise. */
  function WordToHost(hostBigEndian: bool, word: bv32): (r: bv32)
    ensures InHostOrder(hostBigEndian, word, r)
  {
    if hostBigEndian then
      ((word >> 24) & 0x0000_00ff)
      | ((word >> 8) & 0x0000_ff00)
      | ((word << 8) & 0x00ff_0000)
      | ((word << 24) & 0xff00_0000)
    else
      word
  }

  /** `ShortToHost`: a byte swap on a big-endian host, the identity otherwise. */
  function ShortToHost(hostBigEndian: bool, shortword: bv16): (r: bv16)
    ensures var b := LittleEndianShort(shortword);
      LittleEndianShort(r) == if hostBigEndian then [b[1], b[0]] else b
  {
    if hostBigEndian then
      ((shortword << 8) & 0xff00) | ((shortword >> 8) & 0x00ff)
    else
      shortword
  }

  /** `WordToMachine` is the same swap as `WordToHost`, so `WordToHost` undoes it. */
  function WordToMachine(hostBigEndian: bool, word: bv32): (r: bv32)
    ensures InHostOrder(hostBigEndian, word, r)
    ensures WordToHost(hostBigEndian, r) == word
  {
    NormalisersAreInvolutions(hostBigEndian, word, 0);
    WordToHost(hostBigEndian, word)
  }

  /** `ShortToMachine` is the same swap as `ShortToHost`, so `ShortToHost` undoes it. */
  function ShortToMachine(hostBigEndian: bool, shortword: bv16): (r: bv16)
    ensures ShortToHost(hostBigEndian, r) == shortword
  {
    NormalisersAreInvolutions(hostBigEndian, 0, shortword);
    ShortToHost(hostBigEndian, shortword)
  }

  // ---------------------------------------------------------------------
  // How values are laid out in memory bytes.
  // ---------------------------------------------------------------------

  /** Byte `k` (0 = least significant) of a word. */
  function WordByte(word: bv32, k: nat): bv8
    requires k < 4
  {
    var shifted := if k == 0 then word else if k == 1 then word >> 8 else if k == 2 then word >> 16 else word >> 24;
    (shifted & 0xff) as bv8
  }

  /** The four bytes, lowest address first, in the simulated machine's (little-endian) format. */
  function LittleEndianWord(word: bv32): (b: seq<bv8>)
    ensures |b| == 4
  {
    [WordByte(word, 0), WordByte(word, 1), WordByte(word, 2), WordByte(word, 3)]
  }

  /** `r` holds the bytes of `word` in reverse order on a big-endian host, and in the same order otherwise. */
  predicate InHostOrder(hostBigEndian: bool, word: bv32, r: bv32)
  {
    var b := LittleEndianWord(word);
    LittleEndianWord(r) == if hostBigEndian then [b[3], b[2], b[1], b[0]] else b
  }

  /** The word whose little-endian bytes, lowest address first, are `b0`..`b3`. */
  function FromLittleEndianWord(b0: bv8, b1: bv8, b2: bv8, b3: bv8): bv32
  {
    (b0 as bv32) | ((b1 as bv32) << 8) | ((b2 as bv32) << 16) | ((b3 as bv32) << 24)
  }

  /** The two bytes, lowest address first, of a halfword in little-endian format. */
  function LittleEndianShort(shortword: bv16): (b: seq<bv8>)
    ensures |b| == 2
  {
    [(shortword & 0xff) as bv8, (shortword >> 8) as bv8]
  }

  /** The halfword whose little-endian bytes, lowest address first, are `b0`, `b1`. */
  function FromLittleEndianShort(b0: bv8, b1: bv8): bv16
  {
    (b0 as bv16) | ((b1 as bv16) << 8)
  }

  /** The bytes the host writes for `*(unsigned int *)p = word`. */
  function HostStoreWord(hostBigEndian: bool, word: bv32): (b: seq<bv8>)
    ensures |b| == 4
  {
    if hostBigEndian then
      [WordByte(word, 3), WordByte(word, 2), WordByte(word, 1), WordByte(word, 0)]
    else
      LittleEndianWord(word)
  }

  /** The word the host reads for `*(unsigned int *)p` when `p` points at bytes `b0`..`b3`. */
  function HostLoadWord(hostBigEndian: bool, b0: bv8, b1: bv8, b2: bv8, b3: bv8): bv32
  {
    if hostBigEndian then FromLittleEndianWord(b3, b2, b1, b0)
    else FromLittleEndianWord(b0, b1, b2, b3)
  }

  /** The bytes the host writes for `*(unsigned short *)p = shortword`. */
  function HostStoreShort(hostBigEndian: bool, shortword: bv16): (b: seq<bv8>)
    ensures |b| == 2
  {
    var le := LittleEndianShort(shortword);
    if hostBigEndian then [le[1], le[0]] else le
  }

  /** The halfword the host reads for `*(unsigned short *)p` when `p` points at bytes `b0`, `b1`. */
  function HostLoadShort(hostBigEndian: bool, b0: bv8, b1: bv8): bv16
  {
    if hostBigEndian then FromLittleEndianShort(b1, b0)
    else FromLittleEndianShort(b0, b1)
  }

  // ---------------------------------------------------------------------
  // Properties of the normalisers.
  // ---------------------------------------------------------------------

  /** On a little-endian host both normalisers are the identity. */
  lemma LittleEndianHostIsIdentity(word: bv32, shortword: bv16)
    ensures WordToHost(false, word) == word && WordToMachine(false, word) == word
    ensures ShortToHost(false, shortword) == shortword && ShortToMachine(false, shortword) == shortword
  {
  }

  /** Applying a normaliser twice gives back its input, on either host. */
  lemma NormalisersAreInvolutions(hostBigEndian: bool, word: bv32, shortword: bv16)
    ensures WordToHost(hostBigEndian, WordToHost(hostBigEndian, word)) == word
    ensures ShortToHost(hostBigEndian, ShortToHost(hostBigEndian, shortword)) == shortword
  {
  }

  /** A word stored through `WordToMachine` is in the machine's little-endian format on either host. */
  lemma StoredWordIsLittleEndian(hostBigEndian: bool, word: bv32)
    ensures HostStoreWord(hostBigEndian, WordToMachine(hostBigEndian, word)) == LittleEndianWord(word)
  {
    var m := WordToMachine(hostBigEndian, word);
    if hostBigEndian {
      assert WordByte(m, 3) == WordByte(word, 0);
      assert WordByte(m, 2) == WordByte(word, 1);
      assert WordByte(m, 1) == WordByte(word, 2);
      assert WordByte(m, 0) == WordByte(word, 3);
    }
  }

  /** Reading four memory bytes through `WordToHost` decodes them as a little-endian word on either host. */
  lemma LoadedWordIsLittleEndian(hostBigEndian: bool, b0: bv8, b1: bv8, b2: bv8, b3: bv8)
    ensures WordToHost(hostBigEndian, HostLoadWord(hostBigEndian, b0, b1, b2, b3)) == FromLittleEndianWord(b0, b1, b2, b3)
  {
  }

  /** A halfword stored through `ShortToMachine` is little endian on either host. */
  lemma StoredShortIsLittleEndian(hostBigEndian: bool, shortword: bv16)
    ensures HostStoreShort(hostBigEndian, ShortToMachine(hostBigEndian, shortword)) == LittleEndianShort(shortword)
  {
  }

  /** Reading two memory bytes through `ShortToHost` decodes them as a little-endian halfword. */
  lemma LoadedShortIsLittleEndian(hostBigEndian: bool, b0: bv8, b1: bv8)
    ensures ShortToHost(hostBigEndian, HostLoadShort(hostBigEndian, b0, b1)) == FromLittleEndianShort(b0, b1)
  {
  }

  /** Decoding the little-endian bytes of a word gives the word back. */
  lemma LittleEndianWordRoundTrip(word: bv32)
    ensures var b := LittleEndianWord(word); FromLittleEndianWord(b[0], b[1], b[2], b[3]) == word
  {
  }

  /** Decoding the little-endian bytes of a halfword gives the halfword back. */
  lemma LittleEndianShortRoundTrip(shortword: bv16)
    ensures var b := LittleEndianShort(shortword); FromLittleEndianShort(b[0], b[1]) == shortword
  {
  }
}
