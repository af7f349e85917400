/**
 * `board_late_mmc_env_init` of board/unipi/unipi_zulu/mmc.c: when the
 * board booted from the first or second SD/eMMC controller, the MMC device
 * it booted from is put in front of the `boot_targets` search list, so that
 * U-Boot looks for the operating system on the same card first. The
 * environment read and write are the function's input and output.
 */
module ZuluMmc {
  import opened Wrappers
  import opened BootMode
  import ZuluSpl

  /** The size of the `targets` buffer the new value is formatted into. */
  const TargetsSize: nat := 256

  /**
   * A C string as the bytes before its terminating NUL, which is all
   * `env_get` can return and all `%s` prints; lengths count bytes.
   */
  type CString = s: seq<bv8> | forall i :: 0 <= i < |s| ==> s[i] != 0

  /** What the function does to `boot_targets`. */
  datatype EnvUpdate =
    | Unchanged
      /** `env_set("boot_targets", value)` with a value that fits the buffer. */
    | SetTargets(value: CString)
      /** `sprintf` would write `needed` bytes, NUL included, into the 256-byte buffer. */
    | Overflow(needed: nat)

  /** The MMC device number (`dev_no`) chosen for a boot device; None where the function returns early. */
  function MmcIndex(dev: BootDevice): (n: Option<nat>)
    ensures n == Some(1) <==> dev == Sd2Boot || dev == Mmc2Boot
    ensures n == Some(0) <==> dev == Sd1Boot || dev == Mmc1Boot
    ensures n.Some? ==> n.value < 2
  {
    match dev
    case Sd2Boot | Mmc2Boot => Some(1)
    case Sd1Boot | Mmc1Boot => Some(0)
    case _ => None
  }

  /** The ASCII bytes of `<NULL>`. */
  const NullText: CString := [0x3c, 0x4e, 0x55, 0x4c, 0x4c, 0x3e]

  /** The ASCII bytes of `mmc`. */
  const MmcText: seq<bv8> := [0x6d, 0x6d, 0x63]

  /** The ASCII space. */
  const Space: bv8 := 0x20

  /** What `%s` prints for the old value: the string, or `<NULL>` when the variable is unset. */
  function Shown(current: Option<CString>): CString
  {
    match current
    case Some(s) => s
    case None => NullText
  }

  /** The ASCII decimal digit of n < 10. */
  function Digit(n: nat): (c: bv8)
    requires n < 10
    ensures 0x30 <= c <= 0x39 && c as int - 0x30 == n
  {
    (0x30 + n) as bv8
  }

  /** `"mmc%d %s"` for a one-digit device number. */
  function Prefixed(n: nat, rest: CString): (s: CString)
    requires n < 10
    ensures |s| == |rest| + 5 && s[5..] == rest
  {
    var s := MmcText + [Digit(n)] + [Space] + rest;
    assert forall i :: 5 <= i < |s| ==> s[i] == rest[i - 5];
    s
  }

  /** The MMC targets entry a `boot_targets` value starts with, and the list after it. */
  datatype Targets = Targets(first: nat, rest: CString)

  /** Reads back a value of the form `mmc<digit> <rest>`. */
  function ParseTargets(s: CString): (t: Option<Targets>)
    ensures t.Some? ==> t.value.first < 10 && |t.value.rest| + 5 == |s|
  {
    if |s| >= 5 && s[..3] == MmcText && 0x30 <= s[3] <= 0x39 && s[4] == Space
    then
      var rest := s[5..];
      assert forall i :: 0 <= i < |rest| ==> rest[i] == s[i + 5];
      Some(Targets(s[3] as int - 0x30, rest))
    else None
  }

  /** Reading back a prefixed list gives the device number and the old list. */
  lemma ParsePrefixed(n: nat, rest: CString)
    requires n < 10
    ensures ParseTargets(Prefixed(n, rest)) == Some(Targets(n, rest))
  {
    var s := Prefixed(n, rest);
    assert s[..3] == MmcText && s[3] == Digit(n) && s[4] == Space;
  }

  /** A value that reads back is the prefixed form of what it reads back as. */
  lemma PrefixedParse(s: CString)
    requires ParseTargets(s).Some?
    ensures var t := ParseTargets(s).value; Prefixed(t.first, t.rest) == s
  {
    var t := ParseTargets(s).value;
    assert Digit(t.first) == s[3];
    assert s == s[..3] + [s[3]] + [s[4]] + s[5..];
  }

  /**
   * `board_late_mmc_env_init` as a function of the boot device and the old
   * `boot_targets` value: devices other than the first two SD/eMMC
   * controllers leave the variable alone; otherwise the new value is
   * `mmc<dev_no> ` followed by the old value, or an overflow when those
   * bytes and the NUL do not fit the 256-byte buffer.
   */
  function LateMmcEnvInit(dev: BootDevice, current: Option<CString>): (u: EnvUpdate)
    ensures u.Unchanged? <==> MmcIndex(dev).None?
    ensures u.SetTargets? ==>
      |u.value| < TargetsSize && ParseTargets(u.value) == Some(Targets(MmcIndex(dev).value, Shown(current)))
    ensures u.Overflow? ==> u.needed == |Shown(current)| + 6 && u.needed > TargetsSize
  {
    match MmcIndex(dev)
    case None => Unchanged
    case Some(n) =>
      var s := Prefixed(n, Shown(current));
      ParsePrefixed(n, Shown(current));
      if |s| + 1 > TargetsSize then Overflow(|s| + 1) else SetTargets(s)
  }

  /** The new value is the prefixed old value whenever the old value is at most 250 bytes. */
  lemma {:induction false} ShortTargetsArePrefixed(dev: BootDevice, current: Option<CString>)
    requires MmcIndex(dev).Some? && |Shown(current)| + 6 <= TargetsSize
    ensures LateMmcEnvInit(dev, current) == SetTargets(Prefixed(MmcIndex(dev).value, Shown(current)))
  {
  }

  /** An old value of more than 250 bytes always overflows the buffer, by exactly its excess. */
  lemma {:induction false} LongTargetsOverflow(dev: BootDevice, current: Option<CString>)
    requires MmcIndex(dev).Some? && |Shown(current)| + 6 > TargetsSize
    ensures LateMmcEnvInit(dev, current) == Overflow(|Shown(current)| + 6)
    ensures LateMmcEnvInit(dev, current).needed - TargetsSize == |Shown(current)| - 250
  {
  }

  /**
   * The SPL and U-Boot agree on the boot card: when the SPL loaded U-Boot
   * through loader MMC1 (the second controller), `boot_targets` is prefixed
   * with `mmc1`; when it loaded through MMC2 (the third), or not from an MMC
   * at all, the list stays as it is, except for the first controller, which
   * the SPL cannot load from and which gets `mmc0`.
   */
  lemma {:induction false} LoaderAndTargetsAgree(dev: BootDevice, current: Option<CString>)
    ensures ZuluSpl.SplBoardBootDevice(dev) == ZuluSpl.BootDeviceMmc1 ==>
      MmcIndex(dev) == Some(1) && !LateMmcEnvInit(dev, current).Unchanged?
    ensures ZuluSpl.SplBoardBootDevice(dev) != ZuluSpl.BootDeviceMmc1 ==>
      (LateMmcEnvInit(dev, current).Unchanged? <==> dev != Sd1Boot && dev != Mmc1Boot)
  {
  }
}
