# Unipi U-Boot board core, modelled in Dafny

This project models the board-specific core of Unipi Technology's U-Boot
fork, and proves properties of the model:

- **The polled BCM2835 I2C driver** (`drivers/i2c/i2c-bcm2835.c`).
  - `Bcm2835Spec` describes the driver's per-bus state as a value. The FIFO
    fill and drain loops and the poll loop of `bcm2835_i2c_transfer` are
    functions of what the status and FIFO registers return.
  - `Bcm2835Driver.Bus` is the driver itself: a class whose fields are
    updated in place (buffer position, bytes remaining, flags).
    `FillTxFifo`, `DrainRxFifo`, `PollOnce`, `Transfer`, `StartTransfer`,
    `Complete`, `SetBusSpeed` and `Init` are proved to leave the state the
    matching function of `Bcm2835Spec` gives. `RunMessage` and `ProbeChip`
    are stated through `PollSpec` from the state their start sets up.
    `Xfer` is stated over the results of the messages it runs, which the bus
    records in `results`.
  - The controller is an environment. The n-th status read returns
    `status(n)` and the n-th FIFO read returns `fifo(n)`. Bytes written to
    the FIFO register are recorded in `sent`; writes to any other register
    are recorded in `log`.
  - The 100 ms deadline is a budget of `ticks` poll passes.
- **The Unipi EEPROM property decoder** (`board/unipi/common/unipi_eprom.c`),
  module `UnipiEeprom`.
  - The property search walks twelve specdata headers, which share a data
    area of `specdata_size` bytes.
  - The getters cover integers (little-endian into an `unsigned long`),
    byte strings and NUL-terminated strings, plus the product serial, SKU
    and model string.
- **Zulu SPL decisions** (`board/unipi/unipi_zulu/spl.c`), module
  `ZuluSpl`.
  - The loader device used for each boot-ROM boot device.
  - The RAM size code (0, 1, 2 or 4 GiB) decoded from the marking
    characters and serial fused into OTP bank 14.
- **Zulu DRAM size** (`board_phys_sdram_size` in
  `board/unipi/unipi_zulu/unipi_zulu.c`), module `ZuluDram`. It turns the
  stored size code into a byte count.
- **Zulu `boot_targets` prefixing** (`board/unipi/unipi_zulu/mmc.c`),
  module `ZuluMmc`. It is a function from the boot device and the old
  variable value to the new value. Values are C strings: the bytes before
  the terminating NUL, so every length counts bytes, whatever encoding the
  bytes carry.

`BootMode` holds the boot-ROM device enumeration that the SPL and MMC code
share. `Wrappers` holds the `Option` type.

Platform facts used by the model:
- The boards are 64-bit ARM: `unsigned long` is 8 bytes, and `char` is
  unsigned. The `0xff` test in `slotstr` therefore matches erased bytes.
- `I2C_M_RD` is 1 and `I2C_SPEED_STANDARD_RATE` is 100000, as in U-Boot's
  `include/i2c.h`. That header is not part of this model.
- U-Boot's `vsprintf` prints `<NULL>` for a NULL `%s` argument.
  `lib/vsprintf.c` is not part of this model.

## Model

| member | source | states |
|---|---|---|
| `Bcm2835Spec.Divisor` | unipi/drivers/i2c/i2c-bcm2835.c:210-219 | The divider is 1500 exactly when 400 kHz is requested, and 6000 for every other speed. |
| `Bcm2835Spec.StartControl` | unipi/drivers/i2c/i2c-bcm2835.c:119-122 | The start value has the READ bit exactly when the message has `I2C_M_RD`. Its other bits are always ST and I2CEN. |
| `Bcm2835Spec.StartWrites` | unipi/drivers/i2c/i2c-bcm2835.c:124-130 | Starting a transfer makes five register writes. The third puts the chip in A, the fourth the length in DLEN, and the last is the start control value. |
| `Bcm2835Spec.StartPrograms` | unipi/drivers/i2c/i2c-bcm2835.c:124-130 | Per register, what a start writes: control gets clear-then-start, status gets the three acknowledge bits, A gets the chip once, DLEN gets the length once, and nothing else is touched. |
| `Bcm2835Spec.CleanupWrites` | unipi/drivers/i2c/i2c-bcm2835.c:194-199 | The cleanup writes only control and status, and leaves control at 0. |
| `Bcm2835Spec.CleanupProgramsOnlyControlAndStatus` | unipi/drivers/i2c/i2c-bcm2835.c:194-199 | The cleanup programs no register other than control and status. |
| `Bcm2835Spec.InitWrites` | unipi/drivers/i2c/i2c-bcm2835.c:221-239 | Initialisation ends by writing the divider chosen for the requested speed. |
| `Bcm2835Spec.InitPrograms` | unipi/drivers/i2c/i2c-bcm2835.c:231-235 | Initialisation programs the divider once and leaves the address and length registers unchanged. |
| `Bcm2835Spec.TransferPrograms` | unipi/drivers/i2c/i2c-bcm2835.c:117-201 | One transfer, from start to cleanup, programs A with the chip and DLEN with the length, once each, and never touches the divider. |
| `Bcm2835Spec.Sent` | unipi/drivers/i2c/i2c-bcm2835.c:96-98 | Sending one byte sends the byte at the buffer position. The position advances by one, one byte fewer remains, and nothing else changes. |
| `Bcm2835Spec.FillSpec` | unipi/drivers/i2c/i2c-bcm2835.c:88-100 | The fill moves the position forward and keeps position + remaining constant. It makes one status read per byte sent, plus one when it stops early. It sends exactly as many bytes as it advances, and changes no buffer byte and no other register. |
| `Bcm2835Spec.FillSendsInOrder` | unipi/drivers/i2c/i2c-bcm2835.c:92-99 | The bytes the fill writes to the FIFO are the buffer bytes between the old and new positions, in buffer order. |
| `Bcm2835Spec.FillRereadsTxd` | unipi/drivers/i2c/i2c-bcm2835.c:92-95 | Every byte sent follows a fresh status read with TXD set. The fill stops with bytes left only after a fresh read with TXD clear. |
| `Bcm2835Spec.Received` | unipi/drivers/i2c/i2c-bcm2835.c:110-112 | Storing one byte puts the low byte of the next FIFO read at the buffer position, then advances the position and the read counters. |
| `Bcm2835Spec.DrainSpec` | unipi/drivers/i2c/i2c-bcm2835.c:102-114 | The drain keeps position + remaining constant and makes one FIFO read per byte stored. It makes one status read per byte, plus one when it stops early, and sends nothing. |
| `Bcm2835Spec.DrainStoresInOrder` | unipi/drivers/i2c/i2c-bcm2835.c:106-113 | The buffer after the drain is the old buffer with successive FIFO reads stored from the old position on. Bytes outside that range are unchanged. |
| `Bcm2835Spec.DrainRereadsRxd` | unipi/drivers/i2c/i2c-bcm2835.c:106-109 | Every byte stored follows a fresh status read with RXD set. The drain stops with bytes left only after a fresh read with RXD clear. |
| `Bcm2835Spec.Completion` | unipi/drivers/i2c/i2c-bcm2835.c:158-169 | DONE always ends the loop, with result 0 or LEN. The result is 0 exactly when nothing remains and the last status word has RXD clear. For a read message, that is the status read taken after one more drain. |
| `Bcm2835Spec.Iteration` | unipi/drivers/i2c/i2c-bcm2835.c:150-186 | One pass reads the status at least once, keeps position + remaining constant, and writes no register outside the FIFO. A pass that leaves the loop never reports a timeout. |
| `Bcm2835Spec.FaultStopsPolling` | unipi/drivers/i2c/i2c-bcm2835.c:152-156 | A pass leaves with a hardware error exactly on CLKT, or on ERR with TA clear. The result is then the two error bits, and only the status read has happened. |
| `Bcm2835Spec.DoneCompletes` | unipi/drivers/i2c/i2c-bcm2835.c:158-169 | A pass completes exactly when DONE is set without a fault, which is tested before TXW or RXR. The result is 0 only if every byte moved and RXD was clear. |
| `Bcm2835Spec.RequestWithNothingLeftOverruns` | unipi/drivers/i2c/i2c-bcm2835.c:171-183 | A pass ends in overrun exactly when TXW or RXR is requested with nothing left, without a fault and with DONE clear. The result is then the status word ORed with LEN, and the buffer is untouched. |
| `Bcm2835Spec.PollingContinues` | unipi/drivers/i2c/i2c-bcm2835.c:171-186 | A pass that keeps polling carries err as 0, or as ERR while TA is set. It fills on TXW, else drains on RXR, else does nothing. |
| `Bcm2835Spec.PollSpec` | unipi/drivers/i2c/i2c-bcm2835.c:149-192 | The poll loop keeps position + remaining constant and writes no register outside the FIFO. |
| `Bcm2835Spec.IterationClassified` | unipi/drivers/i2c/i2c-bcm2835.c:150-191 | A single pass, whether it leaves or hits the deadline, has a result that matches its exit kind. |
| `Bcm2835Spec.PollResult` | unipi/drivers/i2c/i2c-bcm2835.c:143-202 | A hardware error gives non-zero CLKT/ERR bits, and DONE gives 0 or LEN. An overrun gives LEN with nothing left. A timeout gives 0 or ERR. A result of 0 means a timeout, or DONE with every byte moved. |
| `Bcm2835Spec.QuietBusTimesOutWithoutError` | unipi/drivers/i2c/i2c-bcm2835.c:188-191 | A bus that raises none of DONE, ERR, CLKT, TXW and RXR makes ticks + 1 status reads and then times out with result 0. |
| `Bcm2835Spec.ZeroLengthWriteMovesNothing` | unipi/drivers/i2c/i2c-bcm2835.c:248-251 | A zero-length write, as the probe issues, leaves everything but the status read count unchanged. |
| `Bcm2835Spec.WriteSendsBufferInOrder` | unipi/drivers/i2c/i2c-bcm2835.c:171-177 | A write message on a bus that never raises RXR sends its buffer bytes in order and stores nothing. When it ends with 0 after DONE, all of its bytes were sent. |
| `Bcm2835Spec.ReadFillsBufferInOrder` | unipi/drivers/i2c/i2c-bcm2835.c:158-185 | A read message on a bus that never raises TXW stores successive FIFO reads into its buffer from the current position on, and sends nothing. |
| `Bcm2835Driver.Bus.constructor` | unipi/drivers/i2c/i2c-bcm2835.c:57-68 | A new bus has nothing in flight, a freshly allocated buffer, and no reads, writes or results recorded. |
| `Bcm2835Driver.Bus.ReadStatus` | unipi/drivers/i2c/i2c-bcm2835.c:77-80 | A status read returns the next status value and advances only the status read count. |
| `Bcm2835Driver.Bus.ReadFifo` | unipi/drivers/i2c/i2c-bcm2835.c:77-80 | A FIFO read returns the next FIFO value and advances only the FIFO read count. |
| `Bcm2835Driver.Bus.WriteReg` | unipi/drivers/i2c/i2c-bcm2835.c:71-75 | A register write appends exactly that write to the log. |
| `Bcm2835Driver.Bus.FillTxFifo` | unipi/drivers/i2c/i2c-bcm2835.c:88-100 | The in-place fill loop leaves the bus in the state `FillSpec` gives. |
| `Bcm2835Driver.Bus.DrainRxFifo` | unipi/drivers/i2c/i2c-bcm2835.c:102-114 | The in-place drain loop leaves the bus in the state `DrainSpec` gives, writing through the same buffer. |
| `Bcm2835Driver.Bus.StartTransfer` | unipi/drivers/i2c/i2c-bcm2835.c:117-132 | Starting a transfer appends the start writes to the log and records the message flags. Nothing else changes. |
| `Bcm2835Driver.Bus.PollOnce` | unipi/drivers/i2c/i2c-bcm2835.c:150-186 | One pass of the driver's loop gives the state, err and stop decision of `Iteration`. |
| `Bcm2835Driver.Bus.Transfer` | unipi/drivers/i2c/i2c-bcm2835.c:143-202 | The driver's poll loop returns the err of `PollSpec`, and leaves its state followed by the three cleanup writes. |
| `Bcm2835Driver.Bus.Complete` | unipi/drivers/i2c/i2c-bcm2835.c:194-199 | The cleanup appends exactly the cleanup writes. |
| `Bcm2835Driver.Bus.SetBusSpeed` | unipi/drivers/i2c/i2c-bcm2835.c:210-219 | Setting the speed writes the chosen divider and returns 0. |
| `Bcm2835Driver.Bus.Init` | unipi/drivers/i2c/i2c-bcm2835.c:221-239 | Initialisation appends the three init writes and returns 0. |
| `Bcm2835Driver.Bus.ProbeChip` | unipi/drivers/i2c/i2c-bcm2835.c:241-255 | The probe returns the result of a zero-length write transfer to the chip, and makes that transfer's status reads. It sends and receives nothing, needs nothing of the bus's earlier state, and records no result. The log grows by the start writes, the cleanup writes on every path, and then the re-initialisation with divider 6000, in that order. |
| `Bcm2835Driver.Bus.Load` | unipi/drivers/i2c/i2c-bcm2835.c:264-266 | Before a message's transfer, the bus points at the start of the message's own buffer with all of its bytes to move, and the log has grown by the message's start writes. |
| `Bcm2835Driver.Bus.RunMessage` | unipi/drivers/i2c/i2c-bcm2835.c:264-267 | One message returns `PollSpec`'s err for a transfer started on the message's own buffer. The new bus state is `PollSpec`'s, with the bytes sent or stored in that buffer, followed by the cleanup writes. It programs A and DLEN once each, leaves the divider alone, and records its result. |
| `Bcm2835Driver.Bus.Xfer` | unipi/drivers/i2c/i2c-bcm2835.c:257-275 | Messages run in order and each records its result. The bus is left consistent (buffer position and remaining count within the buffer) when it was before or when any message ran. Every message before the last one run returned 0, the last one's result is returned, and 0 is returned exactly when every message ran and returned 0. A and DLEN receive the addresses and lengths of exactly the messages started, so no message after a failing one is ever started. |
| `UnipiEeprom.TypeOf` | unipi/board/unipi/common/unipi_eprom.c:47-48 | A property type is ten bits: the low byte is the header's type byte and the top two bits come from the length byte. |
| `UnipiEeprom.LenOf` | unipi/board/unipi/common/unipi_eprom.c:49 | A property length is the low six bits of the length byte, so it is below 64. |
| `UnipiEeprom.HeaderDecodeInjective` | unipi/board/unipi/common/unipi_eprom.c:47-49 | Type and length together determine the two header bytes, so no information is lost. |
| `UnipiEeprom.Offset` | unipi/board/unipi/common/unipi_eprom.c:44-55 | The data of header i starts after at most 63 bytes per earlier header. |
| `UnipiEeprom.FindFrom` | unipi/board/unipi/common/unipi_eprom.c:46-57 | Any length returned is below 64, and a property found lies inside the data area. |
| `UnipiEeprom.FindFirstMatch` | unipi/board/unipi/common/unipi_eprom.c:50-54 | The first header of the requested type wins, if no earlier header overruns, at the sum of the earlier lengths. |
| `UnipiEeprom.FindAbortsOutOfBounds` | unipi/board/unipi/common/unipi_eprom.c:50-51 | A header before any match whose data would reach the end of the area ends the search with NULL and that header's length. |
| `UnipiEeprom.FindNotFound` | unipi/board/unipi/common/unipi_eprom.c:46-57 | When no header matches or overruns the data area, the search gives NULL with the length of the last header. |
| `UnipiEeprom.FindSound` | unipi/board/unipi/common/unipi_eprom.c:41-58 | A pointer returned points at the data of a header of the requested type. All earlier headers neither match nor overrun, and the data lies inside the area. |
| `UnipiEeprom.FindProperty` | unipi/board/unipi/common/unipi_eprom.c:41-58 | The search loop's pointer and `*len` are those of `Find`. |
| `UnipiEeprom.LittleEndianFits` | unipi/board/unipi/common/unipi_eprom.c:72-73 | Copying n bytes into a zeroed `unsigned long` leaves every byte above the n-th zero. |
| `UnipiEeprom.LittleEndianOfBytes` | unipi/board/unipi/common/unipi_eprom.c:72-73 | Every value that fits in n bytes is produced by its n little-endian bytes. |
| `UnipiEeprom.BytesOfLittleEndian` | unipi/board/unipi/common/unipi_eprom.c:72-73 | The value determines the property bytes, so every byte reaches the value. |
| `UnipiEeprom.GetUintProperty` | unipi/board/unipi/common/unipi_eprom.c:66-75 | The result is -1 exactly when the property is missing or longer than 8 bytes, and the value is then untouched. Otherwise the result is the length, and the value is the property's bytes read little-endian. |
| `UnipiEeprom.Copy` | unipi/board/unipi/common/unipi_eprom.c:89 | `memcpy` of n bytes sets the first n bytes of the destination and leaves the rest alone. |
| `UnipiEeprom.GetBytesPropertyAsWritten` | unipi/board/unipi/common/unipi_eprom.c:83-91 | The result is the search's length. A NULL read happens exactly when no property was found and that length is positive. When found, min(len, maxlen) bytes are copied and nothing else is written. |
| `UnipiEeprom.GetBytesProperty` | unipi/board/unipi/common/unipi_eprom.c:77-91 | -1 exactly when the property is missing, with the buffer unchanged. Otherwise the full length, with min(len, maxlen) bytes copied and nothing else written. |
| `UnipiEeprom.StrLen` | unipi/board/unipi/common/unipi_eprom.c:22-27 | `slotstr` stops at the first 0x00 or 0xFF within its size, or at the size. |
| `UnipiEeprom.SlotStr` | unipi/board/unipi/common/unipi_eprom.c:18-29 | The bytes before the terminator are copied and the terminator becomes NUL. Nothing past it is written. |
| `UnipiEeprom.GetStrPropertyAsWritten` | unipi/board/unipi/common/unipi_eprom.c:98-111 | The result is the search's length, and a zero length gives "". A NULL read happens exactly when nothing was found with a positive length and maxlen >= 2. With maxlen 1, `slotstr` reads nothing and only `str[0]` is set to NUL. A found property gives its slot string cut at min(len, maxlen-1), NUL-terminated. No byte after the string's NUL is written, except the NUL at min(len, maxlen-1). |
| `UnipiEeprom.GetStrProperty` | unipi/board/unipi/common/unipi_eprom.c:92-111 | -1 exactly when the property is missing, with the buffer unchanged. Otherwise the full length and the slot string cut at min(len, maxlen-1), NUL-terminated. No byte after the string's NUL is written, except the NUL at min(len, maxlen-1). |
| `UnipiEeprom.GetSerial` | unipi/board/unipi/common/unipi_eprom.c:114-119 | The serial as stored, except that an erased word (0xFFFFFFFF) reads as 0. The result is 0 exactly for 0 or erased, and is never the erased value. |
| `UnipiEeprom.GetSku` | unipi/board/unipi/common/unipi_eprom.c:121-126 | The same rule as the serial, for the SKU. |
| `UnipiEeprom.GetModel` | unipi/board/unipi/common/unipi_eprom.c:128-133 | The model string cut at its first 0x00/0xFF, at most maxlen-1 bytes of it, NUL-terminated. No byte after the string's NUL is written, except the NUL at min(size, maxlen-1). |
| `UnipiEeprom.OutOfBoundsEntryReadsNull` | unipi/board/unipi/common/unipi_eprom.c:50-51 | A first header claiming 40 bytes of a 32-byte area makes the search return NULL with length 40. |
| `UnipiEeprom.MissingPropertyReadsNull` | unipi/board/unipi/common/unipi_eprom.c:46-57 | Twelve one-byte BUTTON headers make a MAC lookup return NULL with length 1. |
| `ZuluSpl.SplBoardBootDevice` | unipi/board/unipi/unipi_zulu/spl.c:36-52 | Loader MMC1 exactly for SD2/MMC2, MMC2 exactly for SD3/MMC3, BOARD exactly for USB and SPI exactly for SPI NOR. |
| `ZuluSpl.SplBootDeviceSharing` | unipi/board/unipi/unipi_zulu/spl.c:38-51 | Two different boot devices share a loader only as the SD and eMMC names of one controller. |
| `ZuluSpl.OtpMemSize` | unipi/board/unipi/unipi_zulu/spl.c:75-104 | The decoded size code is always 0, 1, 2 or 4. |
| `ZuluSpl.Marking` | unipi/board/unipi/unipi_zulu/spl.c:82-83 | Packing four marking characters puts character k in byte k of the fuse word. |
| `ZuluSpl.OtpDecodesMarking` | unipi/board/unipi/unipi_zulu/spl.c:87-103 | "Z?4" gives 4 and "Z?2" gives 2. "Z?1" gives 1, or 4 for serial 0x1c9f. Other "Z" markings give 0. A 'Z' only in second place gives 1, and anything else gives 0. |
| `ZuluSpl.OtpSerialOnlyForSizeOne` | unipi/board/unipi/unipi_zulu/spl.c:96-100 | The serial changes the result only for "Z?1" markings, and only between 1 and 4. |
| `ZuluDram.PhysSdramSize` | unipi/board/unipi/unipi_zulu/unipi_zulu.c:63-80 | Always returns 0. The size is code × 1 GiB for codes 1 to 4 and 1 GiB for any other code. |
| `ZuluDram.SdramSizeBounds` | unipi/board/unipi/unipi_zulu/unipi_zulu.c:67-78 | Every reported size is a whole number of GiB between 1 and 4. |
| `ZuluDram.SdramSizeRoundTrip` | unipi/board/unipi/unipi_zulu/unipi_zulu.c:67-74 | A known code is recovered from the size it gives. |
| `ZuluDram.SdramSizeInjective` | unipi/board/unipi/unipi_zulu/unipi_zulu.c:67-78 | Codes 2, 3 and 4 each have a size of their own. All other codes share 1 GiB. |
| `ZuluMmc.MmcIndex` | unipi/board/unipi/unipi_zulu/mmc.c:32-48 | Device 1 exactly for SD2/MMC2 and device 0 exactly for SD1/MMC1. Every other boot device returns early. |
| `ZuluMmc.Prefixed` | unipi/board/unipi/unipi_zulu/mmc.c:51 | The formatted value is a C string five bytes longer than the old value, which it keeps intact as its suffix. |
| `ZuluMmc.ParsePrefixed` | unipi/board/unipi/unipi_zulu/mmc.c:51 | Reading back a formatted value gives the device number and the old value. |
| `ZuluMmc.PrefixedParse` | unipi/board/unipi/unipi_zulu/mmc.c:51 | Any value of the form `mmc<digit> <rest>` is the formatted value of what it reads back as. |
| `ZuluMmc.LateMmcEnvInit` | unipi/board/unipi/unipi_zulu/mmc.c:22-53 | The variable is left alone exactly for boot devices other than the first two controllers. Otherwise the new value, counted in bytes, fits the 256-byte buffer with its NUL and reads back as the device number followed by the old value (or `<NULL>`), or the overflow is reported with the bytes `sprintf` would need. |
| `ZuluMmc.ShortTargetsArePrefixed` | unipi/board/unipi/unipi_zulu/mmc.c:24-52 | An old value of at most 250 bytes is always prefixed, never overflowed. |
| `ZuluMmc.LongTargetsOverflow` | unipi/board/unipi/unipi_zulu/mmc.c:51 | An old value of more than 250 bytes always overflows, and the bytes `sprintf` needs exceed the buffer by exactly the excess. |
| `ZuluMmc.LoaderAndTargetsAgree` | unipi/board/unipi/unipi_zulu/mmc.c:32-48 | When the SPL loaded from loader MMC1, the list is prefixed with `mmc1`, or the overflow is reported. Otherwise it changes only for the first controller (SD1/MMC1). |

## Left out

- Real MMIO and time. Register reads are streams, register writes are logs, and `get_timer` is a budget of poll passes. `debug` and `printf` output is not modelled.
- Writes to the FIFO register are kept in `sent`, apart from the `log` of other register writes. The relative order of a FIFO write and a control write is therefore not recorded.
- Driver binding and platform hooks are not modelled: `i2c_bcm2835_probe`, `init_i2c_power`, `imx_get_i2cclk`, `enable_i2c_clk` and the `U_BOOT_DRIVER` tables.
- `Bcm2835Driver.Bus.ProbeChip` has no `chip_flags` parameter, because the source ignores it.
- `Bcm2835Driver.Bus.RunMessage` requires the message buffer to be exactly `len` bytes long. `remain` is a natural number, so lengths that would be negative in the driver's `int remain` are not modelled.
- `Bcm2835Driver.Bus.Xfer` states the stop-at-first-error rule over the recorded results, and the register programming. It does not restate each message's result or bytes moved in terms of `PollSpec`, because that needs the bus state chained from one message to the next. `RunMessage` states both for a single message.
- The EEPROM layout headers `uniee.h` and `unipi_eprom.h` are not part of this model. The descriptor holds only the fields the decoder reads, and `specdata_size` (twice `UNIEE_BANK_SIZE`) is a parameter.
- `UnipiEeprom.GetBytesPropertyAsWritten` and `UnipiEeprom.GetStrPropertyAsWritten` flag the copy from NULL (`nullRead`) and then leave the buffer unchanged. What a read of address 0 would return is not modelled.
- The getters require the destination to hold at least `maxlen` bytes, with `maxlen` at least 0 (at least 1 for strings). A negative `maxlen`, for which the C code would copy a negative count, is not modelled.
- `UnipiEeprom.GetUintProperty` returns `None` for a value the C code leaves untouched.
- `spl_dram_init`, `check_ram_available`, DDR training, PMIC setup and `board_init_f` are not modelled. The OTP fuse words `id0` and `serial` are parameters.
- `ZuluDram.PhysSdramSize` takes the code read from `MCU_BOOTROM_BASE_ADDR` as a parameter. The "Unknown DDR type" message is not modelled.
- `ZuluMmc.LateMmcEnvInit` takes `get_boot_device()` and `env_get` as inputs and returns what `env_set` would store. A value too long for the 256-byte buffer is reported as `Overflow`; what the overflowing `sprintf` would then do is not modelled.
- `asm/mach-imx/boot_mode.h` is not part of this model. Boot devices the board code never names are folded into one `OtherBoot`.

## Findings

| source | as written | input that shows it | evidently intended | confidence | as-written member | corrected member |
|---|---|---|---|---|---|---|
| unipi/board/unipi/common/unipi_eprom.c:86-89 | Only `len <= 0` is tested before `memcpy(bytes, ptr, …)`, but `find_property` returns NULL with a positive `*len` when nothing matches or a header overruns the area. | A descriptor of twelve one-byte BUTTON headers asked for MAC (`MissingPropertyReadsNull`), or a first header of 40 bytes in a 32-byte area (`OutOfBoundsEntryReadsNull`). Both give NULL with length 1 or 40. | Return a negative number when the property is not found, as the function's comment says. | not executed | `UnipiEeprom.GetBytesPropertyAsWritten` | `UnipiEeprom.GetBytesProperty` |
| unipi/board/unipi/common/unipi_eprom.c:101-107 | Only `len < 0` is tested, which never holds, and then `slotstr(ptr, …)` runs, so the same NULL pointer is read whenever maxlen >= 2. | The same two descriptors (`MissingPropertyReadsNull`, `OutOfBoundsEntryReadsNull`), with maxlen >= 2. | Return a negative number when the property is not found. | not executed | `UnipiEeprom.GetStrPropertyAsWritten` | `UnipiEeprom.GetStrProperty` |
