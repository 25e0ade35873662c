/** Concrete runs of the two handlers on records built byte by byte. */
module TracerScenarios {
  import opened Wrappers
  import opened MachineInts
  import opened TracepointRecord
  import IoctlNumber
  import opened DmIoctlCommands
  import opened Events
  import opened TracerSpec

  /** An entry record carrying `cmd` at offset 24 and `arg` at offset 32, zeros before. */
  function EnterRecord(cmd: u64, arg: u64): (record: seq<u8>)
    ensures |record| == ARG_OFFSET + U64_SIZE
    ensures ReadAt(record, CMD_OFFSET) == Success(cmd)
    ensures ReadAt(record, ARG_OFFSET) == Success(arg)
  {
    var head := seq(CMD_OFFSET, _ => 0);
    var record := head + LeBytes(cmd, U64_SIZE) + LeBytes(arg, U64_SIZE);
    ReadAtWritten(head, cmd, LeBytes(arg, U64_SIZE));
    ReadAtWritten(head + LeBytes(cmd, U64_SIZE), arg, []);
    assert record + [] == record;
    record
  }

  /** An exit record carrying `ret` at offset 16. */
  function ExitRecord(ret: u64): (record: seq<u8>)
    ensures |record| == RET_OFFSET + U64_SIZE
    ensures ReadAt(record, RET_OFFSET) == Success(ret)
  {
    var head := seq(RET_OFFSET, _ => 0);
    ReadAtWritten(head, ret, []);
    assert head + LeBytes(ret, U64_SIZE) + [] == head + LeBytes(ret, U64_SIZE);
    head + LeBytes(ret, U64_SIZE)
  }

  const DEV_CREATE_WORD: u64 := 0xfd03
  const FOREIGN_WORD: u64 := 0x10aa

  /**
    An entry record with command word `0xfd03` (device type 0xfd, number 3)
    from the initial maps: accepted as device-create, id 1 issued, one entry
    in each map, logged as a device create/remove.
   */
  lemma DevCreateAccepted(record: seq<u8>, pidTgid: u64, comm: Comm, userRead: UserMemory)
    requires ReadAt(record, CMD_OFFSET) == Success(DEV_CREATE_WORD)
    requires ReadAt(record, ARG_OFFSET).Success? && userRead(ReadAt(record, ARG_OFFSET).value).Success?
    ensures var s := EnterSpec(Initial, record, pidTgid, comm, userRead);
      && s.outcome == Ok(0)
      && s.tables == Tables(1, map[1 := Event(1, pidTgid, comm, DmDevCreateCmd)], map[pidTgid := 1])
      && s.notice == Some(DmDev)
  {
    assert IoctlNumber.DeviceType(DEV_CREATE_WORD) == IoctlNumber.DM_IOCTL;
    assert IoctlNumber.CommandNumber(DEV_CREATE_WORD) == 3;
  }

  /** An entry record with command word `0x10aa` (device type 0x10) is rejected with `Err(0x10)` whatever the state. */
  lemma ForeignDeviceRejected(t: Tables, record: seq<u8>, pidTgid: u64, comm: Comm, userRead: UserMemory)
    requires ReadAt(record, CMD_OFFSET) == Success(FOREIGN_WORD)
    ensures EnterSpec(t, record, pidTgid, comm, userRead) == EnterStep(Err(0x10), t, None)
  {
    assert IoctlNumber.DeviceType(FOREIGN_WORD) == 0x10;
  }

  /** The device-create call's exit, returning 0, empties both maps again and logs 0. */
  lemma DevCreateRetired(enterRecord: seq<u8>, exitRecord: seq<u8>, pidTgid: u64, comm: Comm, userRead: UserMemory)
    requires ReadAt(enterRecord, CMD_OFFSET) == Success(DEV_CREATE_WORD)
    requires ReadAt(enterRecord, ARG_OFFSET).Success? && userRead(ReadAt(enterRecord, ARG_OFFSET).value).Success?
    requires ReadAt(exitRecord, RET_OFFSET) == Success(0)
    ensures var s := EnterSpec(Initial, enterRecord, pidTgid, comm, userRead);
      ExitSpec(s.tables, exitRecord, pidTgid) == ExitStep(Ok(0), Tables(1, map[], map[]), Some(0))
  {
    DevCreateAccepted(enterRecord, pidTgid, comm, userRead);
    var s := EnterSpec(Initial, enterRecord, pidTgid, comm, userRead);
    assert s.tables.inflightEvents - {1} == map[];
    assert s.tables.pidToId - {pidTgid} == map[];
  }
}
