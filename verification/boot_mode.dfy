/**
 * The i.MX boot-ROM boot devices (`enum boot_device`) that the Zulu board
 * code tells apart. The enumeration itself lives in
 * asm/mach-imx/boot_mode.h, which is not part of this model; every member
 * the board code does not name is folded into `OtherBoot`.
 */
module BootMode {

  datatype BootDevice =
    | Sd1Boot | Sd2Boot | Sd3Boot
    | Mmc1Boot | Mmc2Boot | Mmc3Boot
    | UsbBoot | SpiNorBoot
    | OtherBoot
}
