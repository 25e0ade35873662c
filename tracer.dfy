/**
  The two tracepoint programs of `dm-tracer-ebpf` over the three global BPF
  maps, written as the source writes them: a sequence of early-return steps
  that update the maps in place.
 */
module Tracer {
  import opened Wrappers
  import opened MachineInts
  import opened TracepointRecord
  import opened IoctlNumber
  import opened DmIoctlCommands
  import opened Events
  import opened BpfHashMap
  import opened EventCounter
  import opened TracerSpec
  import TracerProperties
  import TracerScenarios

  /** The global maps `EVENT_ID` (slot 0), `INFLIGHT_EVENTS` and `PID_TO_ID`. */
  class DmTracer {
    var eventId: u64
    var inflightEvents: map<u64, Event>
    var pidToId: map<u64, u64>

    function State(): Tables
      reads this
    {
      Tables(eventId, inflightEvents, pidToId)
    }

    /** The maps as loaded: counter 0, both tables empty. */
    constructor ()
      ensures State() == Initial && Consistent(State())
    {
      eventId := 0;
      inflightEvents := map[];
      pidToId := map[];
    }

    /** `issue_event_id`, with the evidently intended increment of slot 0 (see `EventCounter`). */
    method IssueEventId() returns (id: u64)
      modifies this`eventId
      ensures eventId == Issue(old(eventId)) && id == eventId
    {
      eventId := WrappingAdd(eventId, 1);
      id := eventId;
    }

    /** `try_trace_sys_enter_ioctl`; `pidTgid`, `comm` and `userRead` stand for the BPF helpers. */
    method Enter(record: seq<u8>, pidTgid: u64, comm: Comm, userRead: UserMemory)
      returns (outcome: Outcome, notice: Option<EntryNotice>)
      modifies this
      ensures EnterStep(outcome, State(), notice) == EnterSpec(old(State()), record, pidTgid, comm, userRead)
      ensures old(Consistent(State())) && old(eventId) < U64_MAX ==> Consistent(State())
    {
      ghost var before := State();
      if Consistent(before) && before.eventId < U64_MAX {
        TracerProperties.EnterPreservesConsistent(before, record, pidTgid, comm, userRead);
      }
      notice := None;
      var cmdRead := ReadAt(record, CMD_OFFSET);
      if cmdRead.Failure? {
        return Err(AsU32(cmdRead.error)), None;
      }
      var cmd := cmdRead.value;
      var deviceType := DeviceType(cmd);
      if deviceType != DM_IOCTL {
        return Err(deviceType), None;
      }
      var commandNumber := CommandNumber(cmd);
      var argRead := ReadAt(record, ARG_OFFSET);
      if argRead.Failure? {
        return Err(AsU32(argRead.error)), None;
      }
      var dmCtl := userRead(argRead.value);
      if dmCtl.Failure? {
        return Err(AsU32(dmCtl.error)), None;
      }
      var id := IssueEventId();
      var command := FromU32(commandNumber);
      if command.None? {
        return Err(commandNumber), None;
      }
      var event := NewEvent(id, pidTgid, comm, command.value);
      var inserted := Update(inflightEvents, id, event);
      if inserted.Failure? {
        return Panicked, None;
      }
      inflightEvents := inserted.value;
      var mapped := Update(pidToId, pidTgid, id);
      if mapped.Failure? {
        return Panicked, None;
      }
      pidToId := mapped.value;
      outcome, notice := Ok(0), Some(Notice(command.value, dmCtl.value));
    }

    /** `try_trace_sys_exit_ioctl`; `pidTgid` stands for `bpf_get_current_pid_tgid`. */
    method Exit(record: seq<u8>, pidTgid: u64) returns (outcome: Outcome, notice: Option<u64>)
      modifies this
      ensures ExitStep(outcome, State(), notice) == ExitSpec(old(State()), record, pidTgid)
      ensures old(Consistent(State())) ==> Consistent(State()) && !outcome.Panicked?
    {
      ghost var before := State();
      if Consistent(before) {
        TracerProperties.ExitPreservesConsistent(before, record, pidTgid);
        TracerProperties.ExitNeverPanics(before, record, pidTgid);
      }
      var retRead := ReadAt(record, RET_OFFSET);
      if retRead.Failure? {
        return Err(AsU32(retRead.error)), None;
      }
      if pidTgid !in pidToId {
        return Err(1), None;
      }
      var id := pidToId[pidTgid];
      var retired := Delete(inflightEvents, id);
      if retired.Failure? {
        return Panicked, None;
      }
      inflightEvents := retired.value;
      var unmapped := Delete(pidToId, pidTgid);
      if unmapped.Failure? {
        return Panicked, None;
      }
      pidToId := unmapped.value;
      outcome, notice := Ok(0), Some(retRead.value);
    }
  }

  /** A client: one device-create ioctl traced from load to return. */
  method TraceDevCreate(arg: u64, pidTgid: u64, comm: Comm, userRead: UserMemory)
    requires userRead(arg).Success?
  {
    var tracer := new DmTracer();
    var enterRecord := TracerScenarios.EnterRecord(TracerScenarios.DEV_CREATE_WORD, arg);
    var exitRecord := TracerScenarios.ExitRecord(0);
    TracerScenarios.DevCreateAccepted(enterRecord, pidTgid, comm, userRead);
    TracerScenarios.DevCreateRetired(enterRecord, exitRecord, pidTgid, comm, userRead);
    var entered, entryNotice := tracer.Enter(enterRecord, pidTgid, comm, userRead);
    assert entered == Ok(0) && entryNotice == Some(DmDev) && tracer.pidToId == map[pidTgid := 1];
    var exited, exitNotice := tracer.Exit(exitRecord, pidTgid);
    assert exited == Ok(0) && tracer.inflightEvents == map[] && tracer.pidToId == map[];
  }
}
