/**
 * `board_phys_sdram_size` of board/unipi/unipi_zulu/unipi_zulu.c: the SPL
 * leaves the detected RAM size, in GiB, in the first word of the MCU boot
 * ROM area; U-Boot proper turns that code into the byte size of its DRAM.
 */
module ZuluDram {

  const GiB: nat := 0x4000_0000

  /** What `board_phys_sdram_size` returns and what it stores in `*size`. */
  datatype SdramSize = SdramSize(ret: int, size: nat)

  /** A code the SPL can store that names a real size (1, 2, 3 or 4 GiB). */
  predicate KnownCode(code: bv32)
  {
    1 <= code <= 4
  }

  /**
   * `board_phys_sdram_size` on the stored code: always success (0), with
   * code GiB for the codes 1..4 and 1 GiB for anything else, including the 0
   * the SPL stores when DDR initialisation failed.
   */
  function PhysSdramSize(code: bv32): (r: SdramSize)
    ensures r.ret == 0
    ensures KnownCode(code) ==> r.size == code as nat * GiB
    ensures !KnownCode(code) ==> r.size == GiB
  {
    if code == 4 then SdramSize(0, 0x1_0000_0000)
    else if code == 3 then SdramSize(0, 0xc000_0000)
    else if code == 2 then SdramSize(0, 0x8000_0000)
    else if code == 1 then SdramSize(0, 0x4000_0000)
    else SdramSize(0, 0x4000_0000)
  }

  /** The code a byte size corresponds to: the inverse of PhysSdramSize on the known codes. */
  function CodeOfSize(size: nat): (code: bv32)
    requires size % GiB == 0 && GiB <= size <= 4 * GiB
  {
    if size == 4 * GiB then 4 else if size == 3 * GiB then 3 else if size == 2 * GiB then 2 else 1
  }

  /** Every size reported is a whole number of GiB between 1 and 4, at least 1 GiB even for a bad code. */
  lemma SdramSizeBounds(code: bv32)
    ensures var s := PhysSdramSize(code).size; s % GiB == 0 && GiB <= s <= 4 * GiB
  {
  }

  /** A known code survives the trip to bytes and back. */
  lemma {:induction false} SdramSizeRoundTrip(code: bv32)
    requires KnownCode(code)
    ensures CodeOfSize(PhysSdramSize(code).size) == code
  {
    SdramSizeBounds(code);
  }

  /** Different known codes give different sizes; every unknown code reads as 1 GiB, like code 1. */
  lemma {:induction false} SdramSizeInjective(c1: bv32, c2: bv32)
    requires PhysSdramSize(c1) == PhysSdramSize(c2)
    ensures c1 == c2 || (c1 !in {2, 3, 4} && c2 !in {2, 3, 4})
  {
    if KnownCode(c1) && KnownCode(c2) {
      SdramSizeRoundTrip(c1);
      SdramSizeRoundTrip(c2);
    }
  }
}
