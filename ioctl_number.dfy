/**
  The layout of a Linux ioctl command word (`include/uapi/asm-generic/ioctl.h`):
  bits 0..7 hold the command number (`_IOC_NRSHIFT = 0`), bits 8..15 the
  device type (`_IOC_TYPESHIFT = 8`), and the bits above the size and
  direction, which the tracer ignores.
 */
module IoctlNumber {
  import opened MachineInts

  const IOC_NRSHIFT: nat := 0
  const IOC_TYPESHIFT: nat := 8
  /** `0xff`, the mask of an eight-bit field. */
  const FIELD_MASK: nat := 0xff

  /** The device type of device-mapper control commands (`DM_IOCTL`). */
  const DM_IOCTL: u32 := 0xfd

  /** `((cmd >> 8) & 0xff)`, written as division by 2^IOC_TYPESHIFT (see `ShiftAndMaskIsDivMod`). */
  function DeviceType(cmd: u64): (t: u32)
    ensures t <= FIELD_MASK
  {
    (cmd / 256) % 256
  }

  /** `(cmd & 0xff)`; the command number sits at bit IOC_NRSHIFT = 0. */
  function CommandNumber(cmd: u64): (nr: u32)
    ensures nr <= FIELD_MASK
  {
    cmd % 256
  }

  /**
    On 64-bit words, the shift-and-mask the source writes is the division
    and remainder by 256 that `DeviceType` and `CommandNumber` use.
   */
  lemma ShiftAndMaskIsDivMod(w: bv64)
    ensures (w >> IOC_TYPESHIFT) & 0xff == (w / 256) % 256
    ensures (w >> IOC_NRSHIFT) & 0xff == w % 256
  {
  }

  /**
    `_IOC(dir, type, nr, size)` with the direction and size bits folded into
    `high`, the bits from 16 up: the command word an ioctl caller builds.
   */
  function Ioc(high: nat, deviceType: nat, nr: nat): nat
  {
    high * 65536 + deviceType * 256 + nr
  }

  /** Decoding recovers the fields an ioctl number was built from. */
  lemma DecodeIoc(high: nat, deviceType: nat, nr: nat)
    requires deviceType <= FIELD_MASK && nr <= FIELD_MASK
    requires Ioc(high, deviceType, nr) < U64_MODULUS
    ensures DeviceType(Ioc(high, deviceType, nr)) == deviceType
    ensures CommandNumber(Ioc(high, deviceType, nr)) == nr
  {
    var upper := high * 256 + deviceType;
    assert Ioc(high, deviceType, nr) == nr + 256 * upper;
    DivModByte(nr, upper);
    DivModByte(deviceType, high);
  }

  /** Every command word is the ioctl number built from its decoded fields. */
  lemma IocOfDecode(cmd: u64)
    ensures cmd == Ioc(cmd / 65536, DeviceType(cmd), CommandNumber(cmd))
  {
    var upper := cmd / 256;
    assert cmd == cmd % 256 + 256 * upper;
    assert upper == upper % 256 + 256 * (upper / 256);
    assert upper / 256 == cmd / 65536;
  }
}
