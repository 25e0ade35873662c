/**
  The raw tracepoint record handed to the `sys_enter_ioctl` and
  `sys_exit_ioctl` programs, and `TracePointContext::read_at::<u64>`.
  Record bytes are `u8` values; fields are read in the machine's (little-endian) byte order; a read
  that would run past the end of the record fails with `-EFAULT`, the
  code `bpf_probe_read` reports for a faulting read.
 */
module TracepointRecord {
  import opened Wrappers
  import opened MachineInts

  /** Byte offsets fixed by the kernel's tracepoint format. */
  const RET_OFFSET: nat := 16
  const CMD_OFFSET: nat := 24
  const ARG_OFFSET: nat := 32
  const U64_SIZE: nat := 8

  const EFAULT: int := 14

  function Pow256(n: nat): (r: nat)
    ensures r >= 1
  {
    if n == 0 then 1 else 256 * Pow256(n - 1)
  }

  lemma Pow256Of8()
    ensures Pow256(U64_SIZE) == U64_MODULUS
  {
  }

  /** The number that `bs` spells out with its least significant byte first. */
  function LeValue(bs: seq<u8>): (v: nat)
    ensures v < Pow256(|bs|)
  {
    if bs == [] then 0 else bs[0] + 256 * LeValue(bs[1..])
  }

  /** The `n` low-order bytes of `x`, least significant first. */
  function LeBytes(x: nat, n: nat): (bs: seq<u8>)
    ensures |bs| == n
  {
    if n == 0 then [] else [x % 256] + LeBytes(x / 256, n - 1)
  }

  lemma {:induction false} LeValueOfLeBytes(x: nat, n: nat)
    requires x < Pow256(n)
    ensures LeValue(LeBytes(x, n)) == x
  {
    if n > 0 {
      var bs := LeBytes(x, n);
      assert x / 256 < Pow256(n - 1);
      LeValueOfLeBytes(x / 256, n - 1);
      assert bs[1..] == LeBytes(x / 256, n - 1);
      assert LeValue(bs) == x % 256 + 256 * (x / 256);
    }
  }

  lemma {:induction false} LeBytesOfLeValue(bs: seq<u8>)
    ensures LeBytes(LeValue(bs), |bs|) == bs
  {
    if bs != [] {
      var v := LeValue(bs);
      var low, high := bs[0], LeValue(bs[1..]);
      DivModByte(low, high);
      LeBytesOfLeValue(bs[1..]);
      assert LeBytes(v, |bs|) == [bs[0]] + LeBytes(high, |bs| - 1);
    }
  }

  /**
    `read_at::<u64>(offset)`: the eight bytes at `offset`, or `-EFAULT` when
    the record is too short to hold them.
   */
  function ReadAt(record: seq<u8>, offset: nat): (r: Result<u64, i64>)
    ensures r.Success? <==> offset + U64_SIZE <= |record|
    ensures r.Success? ==> r.value == LeValue(record[offset..offset + U64_SIZE])
    ensures r.Failure? ==> r.error == -EFAULT
  {
    if offset + U64_SIZE <= |record| then
      Pow256Of8();
      Success(LeValue(record[offset..offset + U64_SIZE]))
    else
      Failure(-EFAULT)
  }

  /** A successful read returns the number whose little-endian bytes are the field. */
  lemma ReadAtSpellsField(record: seq<u8>, offset: nat)
    requires offset + U64_SIZE <= |record|
    ensures LeBytes(ReadAt(record, offset).value, U64_SIZE) == record[offset..offset + U64_SIZE]
  {
    LeBytesOfLeValue(record[offset..offset + U64_SIZE]);
  }

  /** Writing a value into a record and reading it back at the same offset. */
  lemma ReadAtWritten(prefix: seq<u8>, x: u64, suffix: seq<u8>)
    ensures ReadAt(prefix + LeBytes(x, U64_SIZE) + suffix, |prefix|) == Success(x)
  {
    var record := prefix + LeBytes(x, U64_SIZE) + suffix;
    assert record[|prefix|..|prefix| + U64_SIZE] == LeBytes(x, U64_SIZE);
    Pow256Of8();
    LeValueOfLeBytes(x, U64_SIZE);
  }
}
