/**
 * Device numbers: devmajor and devminor split a device number in the old
 * Linux dev_t encoding (minor low byte in bits 0-7, major in bits 8-19,
 * the rest of the minor in bits 20-31). tarSetHeader decides with a bit
 * test on st_mode whether to store them.
 */
module Devices {

  /** devmajor: bits 8 to 19. */
  function DevMajor(device: bv64): (r: bv64)
    ensures r < 0x1000
  {
    (device >> 8) & 0xfff
  }

  /** devminor: bits 0 to 7, joined by bits 20 to 31 shifted down to bits 8 to 19. */
  function DevMinor(device: bv64): (r: bv64)
    ensures r < 0x10_0000
    ensures r & 0xff == device & 0xff
  {
    (device & 0xff) | ((device >> 12) & 0xfff00)
  }

  lemma DevMajorReadsBits8To19(d1: bv64, d2: bv64)
    requires d1 & 0xf_ff00 == d2 & 0xf_ff00
    ensures DevMajor(d1) == DevMajor(d2)
  {
  }

  lemma DevMinorReadsBits0To7And20To31(d1: bv64, d2: bv64)
    requires d1 & 0xfff0_00ff == d2 & 0xfff0_00ff
    ensures DevMinor(d1) == DevMinor(d2)
  {
  }

  /** The old Linux encoding of a major and minor number into a device number. */
  function MakeDev(major: bv64, minor: bv64): bv64 {
    (minor & 0xff) | ((major & 0xfff) << 8) | ((minor & 0xf_ff00) << 12)
  }

  /** devmajor and devminor recover the numbers that were encoded. */
  lemma DevNumbersRoundTrip(major: bv64, minor: bv64)
    requires major < 0x1000 && minor < 0x10_0000
    ensures DevMajor(MakeDev(major, minor)) == major
    ensures DevMinor(MakeDev(major, minor)) == minor
  {
  }

  /** A 32-bit device number is fully described by its major and minor numbers. */
  lemma DevNumbersCover32Bits(device: bv64)
    requires device < 0x1_0000_0000
    ensures MakeDev(DevMajor(device), DevMinor(device)) == device
  {
  }

  /** Block-device and character-device file-type bits of st_mode. */
  const S_IFBLK: bv32 := 0x6000
  const S_IFCHR: bv32 := 0x2000

  /** The test tarSetHeader applies to st_mode before storing device numbers. */
  predicate DeviceGuard(mode: bv32)
    // both device types pass; a file type sharing neither bit does not
    ensures mode & 0xF000 == S_IFBLK || mode & 0xF000 == S_IFCHR ==> DeviceGuard(mode)
    ensures mode & (S_IFBLK | S_IFCHR) == 0 ==> !DeviceGuard(mode)
  {
    mode & S_IFBLK != 0 || mode & S_IFCHR != 0
  }
}
