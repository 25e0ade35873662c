/**
  The correlation engine of `dm-tracer-ebpf` as a transition system over the
  three BPF maps: `EVENT_ID` (the counter), `INFLIGHT_EVENTS` (id -> event)
  and `PID_TO_ID` (pid_tgid -> id). `EnterSpec` is one run of the
  `sys_enter_ioctl` program, `ExitSpec` one run of `sys_exit_ioctl`; each is
  a single sequential step. BPF helpers are inputs: the record bytes, the
  current pid_tgid and comm, and `UserMemory`, the outcome
  `bpf_probe_read_user` produces at each address.
 */
module TracerSpec {
  import opened Wrappers
  import opened MachineInts
  import opened TracepointRecord
  import opened IoctlNumber
  import opened DmIoctlCommands
  import opened Events
  import opened BpfHashMap
  import opened EventCounter

  /** `size_of::<dm_ioctl>()`: the bytes one control-block snapshot copies. */
  const DM_IOCTL_SIZE: nat := 312

  /** The control block copied from user memory, kept as opaque bytes. */
  type ControlBlock = s: seq<u8> | |s| == DM_IOCTL_SIZE witness seq(DM_IOCTL_SIZE, _ => 0)

  /** `bpf_probe_read_user::<dm_ioctl>(addr)` for each user address `addr`. */
  type UserMemory = u64 -> Result<ControlBlock, i64>

  /**
    How a handler run ends: `Ok(code)` and `Err(code)` are the two arms of
    its `Result<u32, u32>`; `Panicked` is an `unwrap()` that failed.
   */
  datatype Outcome = Ok(code: u32) | Err(code: u32) | Panicked

  /** The command-specific entry log line. */
  datatype EntryNotice =
    | DmVersion(version0: u32)
    | DmTable
    | DmTargetMsg
    | DmTableDeps
    | DmDev
    | DmListDevices
    | Unexpected(commandNumber: u32)

  datatype Tables = Tables(eventId: u64, inflightEvents: map<u64, Event>, pidToId: map<u64, u64>)

  /** The maps as the loader creates them: counter 0, both tables empty. */
  const Initial: Tables := Tables(0, map[], map[])

  datatype EnterStep = EnterStep(outcome: Outcome, tables: Tables, notice: Option<EntryNotice>)

  /** `notice` is the return value the exit program logs. */
  datatype ExitStep = ExitStep(outcome: Outcome, tables: Tables, notice: Option<u64>)

  /** `dm_ctl.version[0]`, the first little-endian word of the control block. */
  function Version0(dmCtl: ControlBlock): (v: u32)
    ensures LeBytes(v, 4) == dmCtl[..4]
  {
    LeBytesOfLeValue(dmCtl[..4]);
    LeValue(dmCtl[..4])
  }

  /** The summary logged for an accepted command. */
  function Notice(c: DmIoctlCommand, dmCtl: ControlBlock): (n: EntryNotice)
    ensures n.DmVersion? <==> Discriminant(c) == 0
    ensures n.DmVersion? ==> n.version0 == Version0(dmCtl)
    ensures n == DmTable <==> Discriminant(c) in {9, 12}
    ensures n == DmTargetMsg <==> Discriminant(c) == 14
    ensures n == DmTableDeps <==> Discriminant(c) == 11
    ensures n == DmDev <==> Discriminant(c) in {3, 4}
    ensures n == DmListDevices <==> Discriminant(c) == 2
    ensures n.Unexpected? <==> Discriminant(c) in {1, 5, 6, 7, 8, 10, 13, 15, 16, 17}
    ensures n.Unexpected? ==> n.commandNumber == Discriminant(c)
  {
    match c
    case DmVersionCmd => DmVersion(Version0(dmCtl))
    case DmTableLoadCmd | DmTableStatusCmd => DmTable
    case DmTargetMsgCmd => DmTargetMsg
    case DmTableDepsCmd => DmTableDeps
    case DmDevCreateCmd | DmDevRemoveCmd => DmDev
    case DmListDevicesCmd => DmListDevices
    case _ => Unexpected(Discriminant(c))
  }

  /**
    `try_trace_sys_enter_ioctl`. A run moves the counter at most one issuance
    on, writes `PID_TO_ID` only when it succeeds, writes no map when it
    returns `Err`, and logs a summary exactly when it returns `Ok(0)`.
   */
  function EnterSpec(t: Tables, record: seq<u8>, pidTgid: u64, comm: Comm, userRead: UserMemory): (r: EnterStep)
    ensures r.tables.eventId == t.eventId || r.tables.eventId == Issue(t.eventId)
    ensures r.outcome.Ok? ==> r.outcome.code == 0
    ensures r.notice.Some? <==> r.outcome.Ok?
    ensures !r.outcome.Ok? ==> r.tables.pidToId == t.pidToId
    ensures r.outcome.Err? ==> r.tables.inflightEvents == t.inflightEvents
  {
    match ReadAt(record, CMD_OFFSET)
    case Failure(n) => EnterStep(Err(AsU32(n)), t, None)
    case Success(cmd) =>
      var deviceType := DeviceType(cmd);
      if deviceType != DM_IOCTL then EnterStep(Err(deviceType), t, None)
      else
        var commandNumber := CommandNumber(cmd);
        match ReadAt(record, ARG_OFFSET)
        case Failure(n) => EnterStep(Err(AsU32(n)), t, None)
        case Success(arg) =>
          match userRead(arg)
          case Failure(n) => EnterStep(Err(AsU32(n)), t, None)
          case Success(dmCtl) =>
            // the id is issued before the command number is classified
            var eventId := Issue(t.eventId);
            var issued := t.(eventId := eventId);
            match FromU32(commandNumber)
            case None => EnterStep(Err(commandNumber), issued, None)
            case Some(cmd) =>
              var event := NewEvent(eventId, pidTgid, comm, cmd);
              match Update(t.inflightEvents, eventId, event)
              case Failure(_) => EnterStep(Panicked, issued, None)
              case Success(inflight) =>
                match Update(t.pidToId, pidTgid, eventId)
                // the event insert is not undone
                case Failure(_) => EnterStep(Panicked, issued.(inflightEvents := inflight), None)
                case Success(pidToId) =>
                  EnterStep(Ok(0), Tables(eventId, inflight, pidToId), Some(Notice(cmd, dmCtl)))
  }

  /**
    `try_trace_sys_exit_ioctl`. A run never moves the counter, changes
    nothing when it returns `Err`, and when it returns `Ok(0)` has removed the
    calling pid from `PID_TO_ID` and logged the return value.
   */
  function ExitSpec(t: Tables, record: seq<u8>, pidTgid: u64): (r: ExitStep)
    ensures r.tables.eventId == t.eventId
    ensures r.outcome.Ok? ==> r.outcome.code == 0
    ensures r.outcome.Err? ==> r.tables == t && r.notice == None
    ensures r.outcome.Ok? ==> pidTgid in t.pidToId && r.tables.pidToId == t.pidToId - {pidTgid}
    ensures r.outcome.Ok? <==> r.notice.Some?
    ensures r.outcome.Ok? ==> ReadAt(record, RET_OFFSET) == Success(r.notice.value)
  {
    match ReadAt(record, RET_OFFSET)
    case Failure(n) => ExitStep(Err(AsU32(n)), t, None)
    case Success(ret) =>
      if pidTgid !in t.pidToId then ExitStep(Err(1), t, None)
      else
        var eventId := t.pidToId[pidTgid];
        match Delete(t.inflightEvents, eventId)
        case Failure(_) => ExitStep(Panicked, t, None)
        case Success(inflight) =>
          match Delete(t.pidToId, pidTgid)
          case Failure(_) => ExitStep(Panicked, t.(inflightEvents := inflight), None)
          case Success(pidToId) => ExitStep(Ok(0), t.(inflightEvents := inflight, pidToId := pidToId), Some(ret))
  }

  /**
    The correlation invariant: every id in `PID_TO_ID` is a key of
    `INFLIGHT_EVENTS` whose event carries that id and that pid; every stored
    event carries its own key as id, and no key exceeds the counter (ids are
    issued in increasing order); both maps are within capacity.
   */
  ghost predicate Consistent(t: Tables) {
    && |t.inflightEvents| <= MAX_ENTRIES
    && |t.pidToId| <= MAX_ENTRIES
    && (forall id :: id in t.inflightEvents ==> id <= t.eventId && t.inflightEvents[id].id == id)
    && (forall pid :: pid in t.pidToId ==>
          && t.pidToId[pid] in t.inflightEvents
          && t.inflightEvents[t.pidToId[pid]].pid == pid)
  }

  /** `PID_TO_ID` is injective. */
  ghost predicate PidToIdInjective(t: Tables) {
    forall p, q :: p in t.pidToId && q in t.pidToId && p != q ==> t.pidToId[p] != t.pidToId[q]
  }

  lemma InitialConsistent()
    ensures Consistent(Initial)
  {
  }

  lemma ConsistentInjective(t: Tables)
    requires Consistent(t)
    ensures PidToIdInjective(t)
  {
  }
}
