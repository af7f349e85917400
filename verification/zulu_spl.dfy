/**
 * The pure decisions of the Zulu SPL (board/unipi/unipi_zulu/spl.c): which
 * loader device the SPL uses for the device the boot ROM booted from, and
 * the RAM size code read from the marking fused into OTP bank 14.
 */
module ZuluSpl {
  import opened BootMode

  /** The SPL loader devices (`BOOT_DEVICE_*`) the board chooses between. */
  datatype SplDevice = BootDeviceMmc1 | BootDeviceMmc2 | BootDeviceBoard | BootDeviceSpi | BootDeviceNone

  /**
   * `spl_board_boot_device`: the second SD/eMMC controller is loader MMC1,
   * the third is MMC2, USB serial download is the board loader and SPI NOR
   * is SPI; every other boot device has no loader.
   */
  function SplBoardBootDevice(dev: BootDevice): (r: SplDevice)
    ensures r == BootDeviceMmc1 <==> dev == Sd2Boot || dev == Mmc2Boot
    ensures r == BootDeviceMmc2 <==> dev == Sd3Boot || dev == Mmc3Boot
    ensures r == BootDeviceBoard <==> dev == UsbBoot
    ensures r == BootDeviceSpi <==> dev == SpiNorBoot
  {
    match dev
    case Sd2Boot | Mmc2Boot => BootDeviceMmc1
    case Sd3Boot | Mmc3Boot => BootDeviceMmc2
    case UsbBoot => BootDeviceBoard
    case SpiNorBoot => BootDeviceSpi
    case _ => BootDeviceNone
  }

  /** Two boot devices share a loader only when they are the SD and eMMC names of one controller. */
  lemma SplBootDeviceSharing(d1: BootDevice, d2: BootDevice)
    requires d1 != d2 && SplBoardBootDevice(d1) == SplBoardBootDevice(d2) != BootDeviceNone
    ensures {d1, d2} == {Sd2Boot, Mmc2Boot} || {d1, d2} == {Sd3Boot, Mmc3Boot}
  {
  }

  // The ASCII marking characters the OTP decoder compares against.
  const CharZ: bv8 := 0x5a    // 'Z'
  const Char1: bv8 := 0x31    // '1'
  const Char2: bv8 := 0x32    // '2'
  const Char4: bv8 := 0x34    // '4'

  /** The serial number of the 4 GB pre-production Zulu samples marked as 1 GB boards. */
  const PreProductionSerial: bv32 := 0x1c9f

  /** The RAM size codes (in GiB) the OTP decoder can report; 0 means "unknown". */
  predicate IsSizeCode(code: int)
  {
    code == 0 || code == 1 || code == 2 || code == 4
  }

  /** Byte k (0 = least significant) of a 32-bit word. */
  function ByteOf(w: bv32, k: nat): (b: bv8)
    requires k < 4
  {
    if k == 0 then (w & 0xff) as bv8
    else if k == 1 then ((w >> 8) & 0xff) as bv8
    else if k == 2 then ((w >> 16) & 0xff) as bv8
    else ((w >> 24) & 0xff) as bv8
  }

  /**
   * The decision of `spl_read_unipi_otp` on the fuse word `id0` (four
   * marking characters, the first in the low byte) and the fused serial:
   * a RAM size code in GiB.
   */
  function OtpMemSize(id0: bv32, serial: bv32): (code: int)
    ensures IsSizeCode(code)
  {
    var c1 := ByteOf(id0, 0);
    var c3 := ByteOf(id0, 2);
    if c1 == CharZ then
      if c3 == Char4 then 4
      else if c3 == Char2 then 2
      else if c3 != Char1 then 0
      else if serial == PreProductionSerial then 4
      else 1
    else if ByteOf(id0, 1) == CharZ then 1
    else 0
  }

  /** The fuse word holding the marking characters m0 m1 m2 m3, m0 in the low byte. */
  function Marking(m0: bv8, m1: bv8, m2: bv8, m3: bv8): (w: bv32)
    ensures ByteOf(w, 0) == m0 && ByteOf(w, 1) == m1 && ByteOf(w, 2) == m2 && ByteOf(w, 3) == m3
  {
    (m0 as bv32) | ((m1 as bv32) << 8) | ((m2 as bv32) << 16) | ((m3 as bv32) << 24)
  }

  /**
   * The size code in terms of the marking characters: a marking starting
   * "Z?4" is 4 GiB, "Z?2" is 2 GiB, "Z?1" is 1 GiB except for the
   * pre-production serial (4 GiB), any other "Z" marking is unknown; a
   * marking with 'Z' only in second place is 1 GiB, any other is unknown.
   * The fourth character never matters.
   */
  lemma {:induction false} OtpDecodesMarking(m0: bv8, m1: bv8, m2: bv8, m3: bv8, serial: bv32)
    ensures var code := OtpMemSize(Marking(m0, m1, m2, m3), serial);
      && (m0 == CharZ && m2 == Char4 ==> code == 4)
      && (m0 == CharZ && m2 == Char2 ==> code == 2)
      && (m0 == CharZ && m2 == Char1 ==> code == (if serial == PreProductionSerial then 4 else 1))
      && (m0 == CharZ && m2 != Char1 && m2 != Char2 && m2 != Char4 ==> code == 0)
      && (m0 != CharZ && m1 == CharZ ==> code == 1)
      && (m0 != CharZ && m1 != CharZ ==> code == 0)
  {
  }

  /** The serial only matters for "Z?1" markings. */
  lemma {:induction false} OtpSerialOnlyForSizeOne(id0: bv32, s1: bv32, s2: bv32)
    requires OtpMemSize(id0, s1) != OtpMemSize(id0, s2)
    ensures ByteOf(id0, 0) == CharZ && ByteOf(id0, 2) == Char1
    ensures {OtpMemSize(id0, s1), OtpMemSize(id0, s2)} == {1, 4}
  {
  }
}
