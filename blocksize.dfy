/**
 * Cluster block-size and reserved-trailer arithmetic: the validity tests and
 * enum mappings of blocksize.h, the per-(block size, reserved size) dispatch
 * that the BlockSizeDecl macros generate, and BlockSizeInit, which derives
 * the cluster-wide settings from the raw block size read at start-up.
 */
module BlockSize {
  import opened Common

  const MIN_BLOCK_SIZE: nat := 1024
  const MAX_BLOCK_SIZE: nat := 32 * 1024
  const DEFAULT_BLOCK_SIZE: nat := 8192

  /** BlockSizeIdent: identifiers only. */
  const BLOCK_SIZE_UNSET: int := 0
  const BLOCK_SIZE_1K: int := 1
  const BLOCK_SIZE_32K: int := 6

  /** ReservedBlockSize: the number of 8-byte chunks reserved at the page end. */
  const RESERVED_NONE: int := 0
  const RESERVED_8: int := 1
  const RESERVED_16: int := 2

  const RESERVED_CHUNK_BITS: nat := 3
  const RESERVED_CHUNK_SIZE: nat := 8

  const DEFAULT_BLOCK_SIZE_BITS: nat := 13
  /** RELSEG_SIZE comes from the build configuration (1 GB of 8 kB blocks by default). */
  const RELSEG_SIZE: nat := 131072

  predicate IsValidBlockSize(size: nat) {
    MIN_BLOCK_SIZE <= size <= MAX_BLOCK_SIZE && BitAnd(size, size - 1) == 0
  }

  function SizeOfReservedBlock(b: int): int {
    b * RESERVED_CHUNK_SIZE
  }

  const MAX_RESERVED_SIZE: int := SizeOfReservedBlock(RESERVED_16)

  predicate IsValidReservedSize(s: int) {
    s >= 0 && s <= MAX_RESERVED_SIZE
  }

  /** `(s + 7) >> 3`: the number of 8-byte chunks needed to hold s bytes. */
  function ReservedBlockForSize(s: nat): nat {
    (s + (RESERVED_CHUNK_SIZE - 1)) / RESERVED_CHUNK_SIZE
  }

  /** cluster_block_bits for a BlockSizeIdent. */
  function BlockBits(setting: int): int {
    setting + 9
  }

  /** cluster_block_size: `1 << cluster_block_bits`. */
  function BlockSizeOf(setting: int): nat
    requires BlockBits(setting) >= 0
  {
    Pow2(BlockBits(setting))
  }

  /** cluster_relseg_size: `RELSEG_SIZE << 13 >> cluster_block_bits`. */
  function RelsegSizeOf(setting: int): nat
    requires BlockBits(setting) >= 0
  {
    RELSEG_SIZE * Pow2(DEFAULT_BLOCK_SIZE_BITS) / Pow2(BlockBits(setting))
  }

  /** floor(log2 n), the count the shift loop of BlockSizeInit arrives at. */
  function FloorLog2(n: nat): nat
    requires n >= 1
  {
    if n < 2 then 0 else 1 + FloorLog2(n / 2)
  }

  lemma SixPowers()
    ensures Pow2(10) == 1024 && Pow2(11) == 2048 && Pow2(12) == 4096
    ensures Pow2(13) == 8192 && Pow2(14) == 16384 && Pow2(15) == 32768
  {
    assert Pow2(10) == 1024;
  }

  lemma PowerInRange(k: nat)
    requires MIN_BLOCK_SIZE <= Pow2(k) <= MAX_BLOCK_SIZE
    ensures Pow2(k) in {1024, 2048, 4096, 8192, 16384, 32768}
  {
    SixPowers();
    if k < 10 { Pow2Monotone(k, 9); }
    if k > 15 { Pow2Monotone(16, k); }
  }

  lemma SupportedSizesArePowers(s: nat)
    requires s in {1024, 2048, 4096, 8192, 16384, 32768}
    ensures IsPowerOfTwo(s)
  {
    SixPowers();
    if s == 1024 { assert Pow2(10) == s; }
    else if s == 2048 { assert Pow2(11) == s; }
    else if s == 4096 { assert Pow2(12) == s; }
    else if s == 8192 { assert Pow2(13) == s; }
    else if s == 16384 { assert Pow2(14) == s; }
    else { assert Pow2(15) == s; }
  }

  /** The validity test accepts exactly the six supported block sizes. */
  lemma ValidBlockSizes(s: nat)
    ensures IsValidBlockSize(s) <==> s in {1024, 2048, 4096, 8192, 16384, 32768}
  {
    if MIN_BLOCK_SIZE <= s <= MAX_BLOCK_SIZE {
      PowerOfTwoTest(s);
      if IsPowerOfTwo(s) {
        var k: nat :| Pow2(k) == s;
        PowerInRange(k);
      } else if s in {1024, 2048, 4096, 8192, 16384, 32768} {
        SupportedSizesArePowers(s);
      }
    }
  }

  /** floor(log2 n) is the exponent of the largest power of two not above n. */
  lemma {:induction false} FloorLog2Bounds(n: nat)
    requires n >= 1
    ensures Pow2(FloorLog2(n)) <= n < Pow2(FloorLog2(n) + 1)
  {
    if n >= 2 {
      FloorLog2Bounds(n / 2);
      var k := FloorLog2(n / 2);
      assert Pow2(k + 1) == 2 * Pow2(k) && Pow2(k + 2) == 2 * Pow2(k + 1);
    }
  }

  lemma {:induction false} FloorLog2OfPow2(k: nat)
    ensures FloorLog2(Pow2(k)) == k
  {
    if k > 0 {
      FloorLog2OfPow2(k - 1);
      assert Pow2(k) / 2 == Pow2(k - 1);
    }
  }

  /**
   * For every valid block size, 1 << floor(log2 s) is s again and the
   * identifier floor(log2 s) - 9 is one of BLOCK_SIZE_1K .. BLOCK_SIZE_32K.
   */
  lemma ValidBlockSizeBits(s: nat)
    requires IsValidBlockSize(s)
    ensures Pow2(FloorLog2(s)) == s
    ensures 10 <= FloorLog2(s) <= 15
  {
    ValidBlockSizes(s);
    var k: nat :| 10 <= k <= 15 && Pow2(k) == s by {
      assert Pow2(10) == 1024 && Pow2(11) == 2048 && Pow2(12) == 4096;
      assert Pow2(13) == 8192 && Pow2(14) == 16384 && Pow2(15) == 32768;
    }
    FloorLog2OfPow2(k);
  }

  /** The header's inverse mapping: every identifier names a valid block size that maps back to it. */
  lemma BlockSizeIdentRoundTrip(setting: int)
    requires BLOCK_SIZE_1K <= setting <= BLOCK_SIZE_32K
    ensures IsValidBlockSize(BlockSizeOf(setting))
    ensures FloorLog2(BlockSizeOf(setting)) - 9 == setting
  {
    FloorLog2OfPow2(BlockBits(setting));
    assert Pow2(10) == 1024 && Pow2(11) == 2048 && Pow2(12) == 4096;
    assert Pow2(13) == 8192 && Pow2(14) == 16384 && Pow2(15) == 32768;
    ValidBlockSizes(BlockSizeOf(setting));
  }

  /** The BlockSizeIdent of a valid block size is in range and names that size. */
  lemma SettingOfValidSize(s: nat, b: int)
    requires IsValidBlockSize(s) && b == FloorLog2(s) - 9
    ensures BLOCK_SIZE_1K <= b <= BLOCK_SIZE_32K && BlockSizeOf(b) == s
  {
    ValidBlockSizeBits(s);
    assert BlockBits(b) == FloorLog2(s);
  }

  /** Rounding a reserved size up to whole 8-byte chunks: the least multiple of 8 not below s. */
  lemma ReservedRoundsUp(s: nat)
    ensures SizeOfReservedBlock(ReservedBlockForSize(s)) % 8 == 0
    ensures s <= SizeOfReservedBlock(ReservedBlockForSize(s)) < s + 8
  {
  }

  /** A valid reserved size maps to RESERVED_NONE, RESERVED_8 or RESERVED_16, i.e. 0, 8 or 16 bytes. */
  lemma ValidReservedSizes(s: nat)
    requires IsValidReservedSize(s)
    ensures RESERVED_NONE <= ReservedBlockForSize(s) <= RESERVED_16
    ensures SizeOfReservedBlock(ReservedBlockForSize(s)) in {0, 8, 16}
  {
  }

  /** cluster_relseg_size is RELSEG_SIZE at 8 kB blocks and doubles for each bit fewer. */
  lemma {:induction false} RelsegSizeScales(setting: int)
    requires BLOCK_SIZE_1K <= setting <= BLOCK_SIZE_32K
    ensures setting == 4 ==> RelsegSizeOf(setting) == RELSEG_SIZE
    ensures setting < BLOCK_SIZE_32K ==> RelsegSizeOf(setting) == 2 * RelsegSizeOf(setting + 1)
  {
    SixPowers();
    assert Pow2(9) == 512;
    if setting == 1 {
      assert RelsegSizeOf(1) == 1048576 && RelsegSizeOf(2) == 524288;
    } else if setting == 2 {
      assert RelsegSizeOf(2) == 524288 && RelsegSizeOf(3) == 262144;
    } else if setting == 3 {
      assert RelsegSizeOf(3) == 262144 && RelsegSizeOf(4) == 131072;
    } else if setting == 4 {
      assert RelsegSizeOf(4) == 131072 && RelsegSizeOf(5) == 65536;
    } else if setting == 5 {
      assert RelsegSizeOf(5) == 65536 && RelsegSizeOf(6) == 32768;
    }
  }

  /** C's conversion of an `int` result to `unsigned int`. */
  function ToUnsigned(v: int): uint32 {
    v % 0x1_0000_0000
  }

  /**
   * `_block_size_<calc>` as generated by BlockSizeDecl: a switch over the
   * reserved chunk count and then the block-size identifier, calling calc
   * with the literal block size and reserved byte count; anything else is 0.
   */
  function BlockSizeDispatch(bsi: int, reserved: int, sizeCalc: (int, int) -> int): (r: uint32)
    ensures BLOCK_SIZE_1K <= bsi <= BLOCK_SIZE_32K && RESERVED_NONE <= reserved <= RESERVED_16 ==>
              r == ToUnsigned(sizeCalc(Pow2(bsi + 9), SizeOfReservedBlock(reserved)))
    ensures !(BLOCK_SIZE_1K <= bsi <= BLOCK_SIZE_32K && RESERVED_NONE <= reserved <= RESERVED_16) ==> r == 0
  {
    assert Pow2(10) == 1024 && Pow2(11) == 2048 && Pow2(12) == 4096;
    assert Pow2(13) == 8192 && Pow2(14) == 16384 && Pow2(15) == 32768;
    if reserved == RESERVED_NONE || reserved == RESERVED_8 || reserved == RESERVED_16 then
      var rsize := SizeOfReservedBlock(reserved);
      match bsi
      case 1 => ToUnsigned(sizeCalc(1024, rsize))
      case 2 => ToUnsigned(sizeCalc(2048, rsize))
      case 3 => ToUnsigned(sizeCalc(4096, rsize))
      case 4 => ToUnsigned(sizeCalc(8192, rsize))
      case 5 => ToUnsigned(sizeCalc(16384, rsize))
      case 6 => ToUnsigned(sizeCalc(32768, rsize))
      case _ => 0
    else
      0
  }

  /** `_block_size_<calc>` as generated by BlockSizeDecl2: the same switch with one extra argument. */
  function BlockSizeDispatch2(bsi: int, reserved: int, arg: uint32, sizeCalc: (int, int, uint32) -> int): (r: uint32)
    ensures BLOCK_SIZE_1K <= bsi <= BLOCK_SIZE_32K && RESERVED_NONE <= reserved <= RESERVED_16 ==>
              r == ToUnsigned(sizeCalc(Pow2(bsi + 9), SizeOfReservedBlock(reserved), arg))
    ensures !(BLOCK_SIZE_1K <= bsi <= BLOCK_SIZE_32K && RESERVED_NONE <= reserved <= RESERVED_16) ==> r == 0
  {
    assert Pow2(10) == 1024 && Pow2(11) == 2048 && Pow2(12) == 4096;
    assert Pow2(13) == 8192 && Pow2(14) == 16384 && Pow2(15) == 32768;
    if reserved == RESERVED_NONE || reserved == RESERVED_8 || reserved == RESERVED_16 then
      var rsize := SizeOfReservedBlock(reserved);
      match bsi
      case 1 => ToUnsigned(sizeCalc(1024, rsize, arg))
      case 2 => ToUnsigned(sizeCalc(2048, rsize, arg))
      case 3 => ToUnsigned(sizeCalc(4096, rsize, arg))
      case 4 => ToUnsigned(sizeCalc(8192, rsize, arg))
      case 5 => ToUnsigned(sizeCalc(16384, rsize, arg))
      case 6 => ToUnsigned(sizeCalc(32768, rsize, arg))
      case _ => 0
    else
      0
  }

  /** BlockSizeDecl2 is BlockSizeDecl with the extra argument passed through to calc. */
  lemma Dispatch2PassesArgument(bsi: int, reserved: int, arg: uint32, sizeCalc: (int, int, uint32) -> int)
    ensures BlockSizeDispatch2(bsi, reserved, arg, sizeCalc) == BlockSizeDispatch(bsi, reserved, (b, s) => sizeCalc(b, s, arg))
  {
  }

  /** The cluster-wide settings that blocksize.c keeps in global variables. */
  class ClusterBlockSize {
    var blockSetting: int       // cluster_block_setting
    var reservedPage: int       // cluster_reserved_page
    var reservedPageSize: int   // reserved_page_size

    constructor ()
      ensures blockSetting == BLOCK_SIZE_UNSET
      ensures reservedPage == RESERVED_NONE
      ensures reservedPageSize == 0
    {
      blockSetting := BLOCK_SIZE_UNSET;
      reservedPage := RESERVED_NONE;
      reservedPageSize := 0;
    }

    /**
     * BlockSizeInit: count the bits of the raw block size with a shift loop,
     * map the count to a BlockSizeIdent, and round the reserved size up to
     * 8-byte chunks.
     */
    method BlockSizeInit(rawBlockSize: nat, reserved: nat)
      requires IsValidBlockSize(rawBlockSize)
      requires IsValidReservedSize(reserved)
      modifies this
      ensures blockSetting == FloorLog2(rawBlockSize) - 9
      ensures BLOCK_SIZE_1K <= blockSetting <= BLOCK_SIZE_32K
      ensures BlockSizeOf(blockSetting) == rawBlockSize
      ensures reservedPage == ReservedBlockForSize(reserved)
      ensures RESERVED_NONE <= reservedPage <= RESERVED_16
      ensures reservedPageSize == SizeOfReservedBlock(reservedPage)
      ensures reservedPageSize % 8 == 0 && reserved <= reservedPageSize < reserved + 8
    {
      var bits := 0;
      var blocksize: nat := rawBlockSize / 2;
      while blocksize != 0
        invariant blocksize != 0 ==> bits + 1 + FloorLog2(blocksize) == FloorLog2(rawBlockSize)
        invariant blocksize == 0 ==> bits == FloorLog2(rawBlockSize)
        decreases blocksize
      {
        bits := bits + 1;
        blocksize := blocksize / 2;
      }
      blockSetting := (bits - 10) + 1;
      reservedPage := ReservedBlockForSize(reserved);
      reservedPageSize := SizeOfReservedBlock(reservedPage);
      SettingOfValidSize(rawBlockSize, blockSetting);
      ReservedRoundsUp(reserved);
    }
  }
}
