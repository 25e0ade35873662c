/** What one entry or exit run does to the three maps, and what the pair keeps invariant. */
module TracerProperties {
  import opened Wrappers
  import opened MachineInts
  import opened TracepointRecord
  import opened IoctlNumber
  import opened DmIoctlCommands
  import opened Events
  import opened BpfHashMap
  import opened EventCounter
  import opened TracerSpec

  /** The shortest entry record from which both fields can be read. */
  const ENTER_RECORD_LEN: nat := ARG_OFFSET + U64_SIZE

  /** The command word of an entry record long enough to hold one. */
  function CmdWord(record: seq<u8>): (cmd: u64)
    requires |record| >= CMD_OFFSET + U64_SIZE
    ensures ReadAt(record, CMD_OFFSET) == Success(cmd)
  {
    ReadAt(record, CMD_OFFSET).value
  }

  /** The argument pointer of an entry record long enough to hold one. */
  function ArgPointer(record: seq<u8>): (arg: u64)
    requires |record| >= ENTER_RECORD_LEN
    ensures ReadAt(record, ARG_OFFSET) == Success(arg)
  {
    ReadAt(record, ARG_OFFSET).value
  }

  /**
    A record too short for the command word or the argument pointer aborts
    the entry run with an error and touches neither the counter nor a map.
   */
  lemma EnterTruncatedRecord(t: Tables, record: seq<u8>, pidTgid: u64, comm: Comm, userRead: UserMemory)
    requires |record| < ENTER_RECORD_LEN
    ensures var s := EnterSpec(t, record, pidTgid, comm, userRead);
      s.outcome.Err? && s.tables == t && s.notice == None
    ensures |record| < CMD_OFFSET + U64_SIZE ==>
      EnterSpec(t, record, pidTgid, comm, userRead) == EnterStep(Err(AsU32(-EFAULT)), t, None)
  {
  }

  /** Any device type other than device-mapper's is returned as the error, whatever the command number. */
  lemma EnterForeignDevice(t: Tables, record: seq<u8>, pidTgid: u64, comm: Comm, userRead: UserMemory)
    requires |record| >= CMD_OFFSET + U64_SIZE
    requires DeviceType(CmdWord(record)) != DM_IOCTL
    ensures EnterSpec(t, record, pidTgid, comm, userRead) == EnterStep(Err(DeviceType(CmdWord(record))), t, None)
  {
  }

  /** A faulting copy of the control block aborts the run with the fault code truncated to 32 bits. */
  lemma EnterUserReadFault(t: Tables, record: seq<u8>, pidTgid: u64, comm: Comm, userRead: UserMemory)
    requires |record| >= ENTER_RECORD_LEN
    requires DeviceType(CmdWord(record)) == DM_IOCTL
    requires userRead(ArgPointer(record)).Failure?
    ensures EnterSpec(t, record, pidTgid, comm, userRead)
         == EnterStep(Err(AsU32(userRead(ArgPointer(record)).error)), t, None)
  {
  }

  /**
    A device-mapper command number above 17 is returned as the error and
    leaves both maps alone, but the counter has already moved on by one.
   */
  lemma EnterUnknownCommand(t: Tables, record: seq<u8>, pidTgid: u64, comm: Comm, userRead: UserMemory)
    requires |record| >= ENTER_RECORD_LEN
    requires DeviceType(CmdWord(record)) == DM_IOCTL
    requires userRead(ArgPointer(record)).Success?
    requires CommandNumber(CmdWord(record)) > LAST_COMMAND
    ensures var s := EnterSpec(t, record, pidTgid, comm, userRead);
      && s.outcome == Err(CommandNumber(CmdWord(record)))
      && s.tables.eventId == Issue(t.eventId)
      && s.tables.inflightEvents == t.inflightEvents
      && s.tables.pidToId == t.pidToId
      && s.notice == None
  {
  }

  /** Everything an entry run needs to get through to `Ok(0)`. */
  ghost predicate Admitted(t: Tables, record: seq<u8>, pidTgid: u64, userRead: UserMemory) {
    && |record| >= ENTER_RECORD_LEN
    && DeviceType(CmdWord(record)) == DM_IOCTL
    && CommandNumber(CmdWord(record)) <= LAST_COMMAND
    && userRead(ArgPointer(record)).Success?
    && (Issue(t.eventId) in t.inflightEvents || |t.inflightEvents| < MAX_ENTRIES)
    && (pidTgid in t.pidToId || |t.pidToId| < MAX_ENTRIES)
  }

  /** An entry run returns `Ok(0)` exactly when it is admitted, and otherwise logs nothing. */
  lemma EnterSucceedsIffAdmitted(t: Tables, record: seq<u8>, pidTgid: u64, comm: Comm, userRead: UserMemory)
    ensures EnterSpec(t, record, pidTgid, comm, userRead).outcome == Ok(0) <==> Admitted(t, record, pidTgid, userRead)
    ensures !EnterSpec(t, record, pidTgid, comm, userRead).outcome.Ok? ==> EnterSpec(t, record, pidTgid, comm, userRead).notice == None
  {
  }

  /**
    A successful entry run issues `old counter + 1` (mod 2^64), stores
    `Event::new(id, pid, comm, cmd)` under that id, points the pid at it,
    leaves every other key alone and logs the command's summary.
   */
  lemma EnterSucceeds(t: Tables, record: seq<u8>, pidTgid: u64, comm: Comm, userRead: UserMemory)
    requires EnterSpec(t, record, pidTgid, comm, userRead).outcome.Ok?
    ensures |record| >= ENTER_RECORD_LEN && FromU32(CommandNumber(CmdWord(record))).Some?
    ensures var s := EnterSpec(t, record, pidTgid, comm, userRead);
      var id := Issue(t.eventId);
      var cmd := FromU32(CommandNumber(CmdWord(record))).value;
      && s.outcome == Ok(0)
      && s.tables.eventId == id
      && s.tables.inflightEvents == t.inflightEvents[id := NewEvent(id, pidTgid, comm, cmd)]
      && s.tables.pidToId == t.pidToId[pidTgid := id]
      && (forall k :: k in t.inflightEvents && k != id ==> k in s.tables.inflightEvents && s.tables.inflightEvents[k] == t.inflightEvents[k])
      && (forall p :: p in t.pidToId && p != pidTgid ==> p in s.tables.pidToId && s.tables.pidToId[p] == t.pidToId[p])
      && s.notice == Some(Notice(cmd, userRead(ArgPointer(record)).value))
  {
  }

  /**
    A second successful entry for a pid that already has an in-flight id
    repoints the pid at the new id; the previous event stays in
    `INFLIGHT_EVENTS`, but no pid refers to it any more.
   */
  lemma EnterOrphansPreviousEvent(t: Tables, record: seq<u8>, pidTgid: u64, comm: Comm, userRead: UserMemory)
    requires Consistent(t) && t.eventId < U64_MAX
    requires pidTgid in t.pidToId
    requires EnterSpec(t, record, pidTgid, comm, userRead).outcome.Ok?
    ensures var s := EnterSpec(t, record, pidTgid, comm, userRead);
      var previous := t.pidToId[pidTgid];
      && s.tables.pidToId[pidTgid] == t.eventId + 1 != previous
      && previous in s.tables.inflightEvents
      && s.tables.inflightEvents[previous] == t.inflightEvents[previous]
      && (forall p :: p in s.tables.pidToId ==> s.tables.pidToId[p] != previous)
  {
    EnterSucceeds(t, record, pidTgid, comm, userRead);
    ConsistentInjective(t);
  }

  /**
    When `INFLIGHT_EVENTS` is full the first insert fails and its `unwrap()`
    panics: the counter has advanced, both maps are as they were.
   */
  lemma EnterEventTableFull(t: Tables, record: seq<u8>, pidTgid: u64, comm: Comm, userRead: UserMemory)
    requires |record| >= ENTER_RECORD_LEN
    requires DeviceType(CmdWord(record)) == DM_IOCTL
    requires CommandNumber(CmdWord(record)) <= LAST_COMMAND
    requires userRead(ArgPointer(record)).Success?
    requires |t.inflightEvents| >= MAX_ENTRIES && Issue(t.eventId) !in t.inflightEvents
    ensures EnterSpec(t, record, pidTgid, comm, userRead) == EnterStep(Panicked, t.(eventId := Issue(t.eventId)), None)
  {
  }

  /**
    When only `PID_TO_ID` is full the second insert panics after the first
    has already stored the event: the two inserts are not atomic.
   */
  lemma EnterPidTableFull(t: Tables, record: seq<u8>, pidTgid: u64, comm: Comm, userRead: UserMemory)
    requires |record| >= ENTER_RECORD_LEN
    requires DeviceType(CmdWord(record)) == DM_IOCTL
    requires CommandNumber(CmdWord(record)) <= LAST_COMMAND
    requires userRead(ArgPointer(record)).Success?
    requires |t.inflightEvents| < MAX_ENTRIES
    requires |t.pidToId| >= MAX_ENTRIES && pidTgid !in t.pidToId
    ensures var s := EnterSpec(t, record, pidTgid, comm, userRead);
      var id := Issue(t.eventId);
      && s.outcome == Panicked
      && s.tables.pidToId == t.pidToId
      && id in s.tables.inflightEvents
      && s.tables.inflightEvents == t.inflightEvents[id := NewEvent(id, pidTgid, comm, FromU32(CommandNumber(CmdWord(record))).value)]
  {
  }

  /** Issuing an id below the 64-bit boundary keeps the invariant. */
  lemma IssueKeepsConsistent(t: Tables)
    requires Consistent(t) && t.eventId < U64_MAX
    ensures Consistent(t.(eventId := Issue(t.eventId)))
  {
  }

  /** Storing an event under the id just issued keeps the invariant. */
  lemma StoreKeepsConsistent(t: Tables, e: Event)
    requires Consistent(t) && e.id == t.eventId && e.id !in t.inflightEvents
    requires |t.inflightEvents| < MAX_ENTRIES
    ensures Consistent(t.(inflightEvents := t.inflightEvents[e.id := e]))
  {
    var u := t.(inflightEvents := t.inflightEvents[e.id := e]);
    forall pid | pid in u.pidToId
      ensures u.pidToId[pid] in u.inflightEvents && u.inflightEvents[u.pidToId[pid]].pid == pid
    {
      assert t.pidToId[pid] != e.id;
    }
  }

  /** Pointing a pid at a stored event of that pid keeps the invariant. */
  lemma MapKeepsConsistent(t: Tables, pid: u64, id: u64)
    requires Consistent(t) && id in t.inflightEvents && t.inflightEvents[id].pid == pid
    requires pid in t.pidToId || |t.pidToId| < MAX_ENTRIES
    ensures Consistent(t.(pidToId := t.pidToId[pid := id]))
  {
  }

  /** Until the counter reaches 2^64 - 1, every entry run keeps the correlation invariant, whatever its outcome. */
  lemma EnterPreservesConsistent(t: Tables, record: seq<u8>, pidTgid: u64, comm: Comm, userRead: UserMemory)
    requires Consistent(t) && t.eventId < U64_MAX
    ensures Consistent(EnterSpec(t, record, pidTgid, comm, userRead).tables)
  {
    var s := EnterSpec(t, record, pidTgid, comm, userRead);
    if s.tables != t {
      // the run got as far as issuing an id
      var cmd := CmdWord(record);
      var nr := CommandNumber(cmd);
      var issued := t.(eventId := Issue(t.eventId));
      IssueKeepsConsistent(t);
      assert t.eventId + 1 !in t.inflightEvents;
      if FromU32(nr).Some? && Update(t.inflightEvents, issued.eventId, NewEvent(issued.eventId, pidTgid, comm, FromU32(nr).value)).Success? {
        var e := NewEvent(issued.eventId, pidTgid, comm, FromU32(nr).value);
        StoreKeepsConsistent(issued, e);
        var stored := issued.(inflightEvents := issued.inflightEvents[e.id := e]);
        if Update(t.pidToId, pidTgid, e.id).Success? {
          MapKeepsConsistent(stored, pidTgid, e.id);
          assert s.tables == stored.(pidToId := stored.pidToId[pidTgid := e.id]);
        } else {
          assert s.tables == stored;
        }
      } else {
        assert s.tables == issued;
      }
    }
  }

  /** A record too short for the return value aborts the exit run without touching a map. */
  lemma ExitTruncatedRecord(t: Tables, record: seq<u8>, pidTgid: u64)
    requires |record| < RET_OFFSET + U64_SIZE
    ensures ExitSpec(t, record, pidTgid) == ExitStep(Err(AsU32(-EFAULT)), t, None)
  {
  }

  /** An exit for a pid with nothing in flight returns `Err(1)` and changes nothing. */
  lemma ExitUnmatched(t: Tables, record: seq<u8>, pidTgid: u64)
    requires |record| >= RET_OFFSET + U64_SIZE
    requires pidTgid !in t.pidToId
    ensures ExitSpec(t, record, pidTgid) == ExitStep(Err(1), t, None)
  {
  }

  /**
    Under the invariant, an exit for a pid with an id in flight retires
    exactly that pid and that id, keeps every other entry and the counter,
    logs the return value and returns `Ok(0)`; neither `unwrap()` fails.
   */
  lemma ExitRetires(t: Tables, record: seq<u8>, pidTgid: u64)
    requires Consistent(t)
    requires |record| >= RET_OFFSET + U64_SIZE
    requires pidTgid in t.pidToId
    ensures var s := ExitSpec(t, record, pidTgid);
      var id := t.pidToId[pidTgid];
      && s.outcome == Ok(0)
      && s.notice == Some(ReadAt(record, RET_OFFSET).value)
      && s.tables.eventId == t.eventId
      && s.tables.inflightEvents == t.inflightEvents - {id}
      && s.tables.pidToId == t.pidToId - {pidTgid}
      && (forall k :: k in t.inflightEvents && k != id ==> k in s.tables.inflightEvents && s.tables.inflightEvents[k] == t.inflightEvents[k])
      && (forall p :: p in t.pidToId && p != pidTgid ==> p in s.tables.pidToId && s.tables.pidToId[p] == t.pidToId[p])
  {
  }

  /** Under the invariant the exit program never reaches a failing `unwrap()`. */
  lemma ExitNeverPanics(t: Tables, record: seq<u8>, pidTgid: u64)
    requires Consistent(t)
    ensures !ExitSpec(t, record, pidTgid).outcome.Panicked?
  {
  }

  /** Every exit run keeps the correlation invariant. */
  lemma ExitPreservesConsistent(t: Tables, record: seq<u8>, pidTgid: u64)
    requires Consistent(t)
    ensures Consistent(ExitSpec(t, record, pidTgid).tables)
  {
    var s := ExitSpec(t, record, pidTgid);
    if s.tables != t {
      var id := t.pidToId[pidTgid];
      assert forall p :: p in s.tables.pidToId ==> p in t.pidToId && p != pidTgid && t.pidToId[p] != id;
    }
  }

  /**
    An admitted entry for a pid with nothing in flight, followed by an exit
    for the same pid, restores both maps; only the counter has moved.
   */
  lemma EnterThenExitRestores(t: Tables, enterRecord: seq<u8>, exitRecord: seq<u8>, pidTgid: u64, comm: Comm, userRead: UserMemory)
    requires Consistent(t) && t.eventId < U64_MAX
    requires pidTgid !in t.pidToId
    requires EnterSpec(t, enterRecord, pidTgid, comm, userRead).outcome.Ok?
    requires |exitRecord| >= RET_OFFSET + U64_SIZE
    ensures var s := EnterSpec(t, enterRecord, pidTgid, comm, userRead);
      var e := ExitSpec(s.tables, exitRecord, pidTgid);
      e.outcome == Ok(0) && e.tables == t.(eventId := t.eventId + 1)
  {
    var s := EnterSpec(t, enterRecord, pidTgid, comm, userRead);
    var id := t.eventId + 1;
    EnterSucceeds(t, enterRecord, pidTgid, comm, userRead);
    assert id !in t.inflightEvents;
    var u := s.tables;
    assert u.pidToId[pidTgid] == id && id in u.inflightEvents;
    UpdateThenRemove(t.inflightEvents, id, u.inflightEvents[id]);
    UpdateThenRemove(t.pidToId, pidTgid, id);
    assert ExitSpec(u, exitRecord, pidTgid).tables == u.(inflightEvents := t.inflightEvents, pidToId := t.pidToId);
  }

  lemma UpdateThenRemove<K, V>(m: map<K, V>, k: K, v: V)
    requires k !in m
    ensures m[k := v] - {k} == m
  {
    assert (m[k := v] - {k}).Keys == m.Keys;
  }

  /** One traced ioctl: the entry run's inputs and the exit record of the same pid. */
  datatype Call = Call(enterRecord: seq<u8>, exitRecord: seq<u8>, pidTgid: u64, comm: Comm, userRead: UserMemory)

  /** A device-mapper call with a known command whose records and control block can all be read. */
  ghost predicate TracedCall(c: Call) {
    && |c.enterRecord| >= ENTER_RECORD_LEN
    && DeviceType(CmdWord(c.enterRecord)) == DM_IOCTL
    && CommandNumber(CmdWord(c.enterRecord)) <= LAST_COMMAND
    && c.userRead(ArgPointer(c.enterRecord)).Success?
    && |c.exitRecord| >= RET_OFFSET + U64_SIZE
  }

  /** The maps after each call's entry run is followed by its exit run, one call after another. */
  function RunPairs(t: Tables, calls: seq<Call>): (r: Tables)
    ensures calls == [] ==> r == t
    decreases |calls|
  {
    if calls == [] then t
    else
      var c := calls[0];
      var entered := EnterSpec(t, c.enterRecord, c.pidTgid, c.comm, c.userRead).tables;
      RunPairs(ExitSpec(entered, c.exitRecord, c.pidTgid).tables, calls[1..])
  }

  /**
    Paired entry and exit runs of device-mapper calls, starting from empty
    maps, leave both maps empty again; the counter has issued one id per call.
   */
  lemma {:induction false} PairedCallsDrain(t: Tables, calls: seq<Call>)
    requires t.inflightEvents == map[] && t.pidToId == map[]
    requires t.eventId + |calls| <= U64_MAX
    requires forall i :: 0 <= i < |calls| ==> TracedCall(calls[i])
    ensures var r := RunPairs(t, calls);
      r.inflightEvents == map[] && r.pidToId == map[] && r.eventId == t.eventId + |calls|
    decreases |calls|
  {
    if calls != [] {
      var c := calls[0];
      assert TracedCall(c);
      assert Consistent(t);
      EnterSucceedsIffAdmitted(t, c.enterRecord, c.pidTgid, c.comm, c.userRead);
      EnterThenExitRestores(t, c.enterRecord, c.exitRecord, c.pidTgid, c.comm, c.userRead);
      var next := t.(eventId := t.eventId + 1);
      assert forall i :: 0 <= i < |calls[1..]| ==> TracedCall(calls[1..][i]) by {
        forall i | 0 <= i < |calls[1..]| ensures TracedCall(calls[1..][i]) {
          assert calls[1..][i] == calls[i + 1];
        }
      }
      PairedCallsDrain(next, calls[1..]);
    }
  }

  /** One handler run in a trace: an entry run with its inputs, or an exit run. */
  datatype Step =
    | Entry(record: seq<u8>, pidTgid: u64, comm: Comm, userRead: UserMemory)
    | Return(record: seq<u8>, pidTgid: u64)

  /** The maps after running `steps` one after another from `t`. */
  function Run(t: Tables, steps: seq<Step>): (r: Tables)
    ensures steps == [] ==> r == t
    decreases |steps|
  {
    if steps == [] then t
    else
      var next := match steps[0]
        case Entry(record, pid, comm, userRead) => EnterSpec(t, record, pid, comm, userRead).tables
        case Return(record, pid) => ExitSpec(t, record, pid).tables;
      Run(next, steps[1..])
  }

  /** The number of entry runs in `steps`: the ids the trace issues. */
  function Entries(steps: seq<Step>): (n: nat)
    ensures n <= |steps|
    decreases |steps|
  {
    if steps == [] then 0 else (if steps[0].Entry? then 1 else 0) + Entries(steps[1..])
  }

  /**
    `steps` traces device-mapper calls on distinct pids, with `open` the
    pids whose call has entered but not yet returned: an entry is a traced
    call for a pid not in flight while fewer than 1024 are, an exit returns
    a pid in flight, and every call has returned by the end.
   */
  ghost predicate WellPaired(open: set<u64>, steps: seq<Step>)
    decreases |steps|
  {
    if steps == [] then open == {}
    else match steps[0]
      case Entry(record, pid, comm, userRead) =>
        && |record| >= ENTER_RECORD_LEN
        && DeviceType(CmdWord(record)) == DM_IOCTL
        && CommandNumber(CmdWord(record)) <= LAST_COMMAND
        && userRead(ArgPointer(record)).Success?
        && pid !in open && |open| < MAX_ENTRIES
        && WellPaired(open + {pid}, steps[1..])
      case Return(record, pid) =>
        && |record| >= RET_OFFSET + U64_SIZE
        && pid in open
        && WellPaired(open - {pid}, steps[1..])
  }

  /**
    The pids in flight are exactly `open`, each with its one event: the
    invariant holds and the two maps are the same size.
   */
  ghost predicate InFlight(t: Tables, open: set<u64>) {
    Consistent(t) && t.pidToId.Keys == open && |t.inflightEvents| == |t.pidToId|
  }

  /** A traced entry for a pid not in flight, with room in both maps, puts that pid in flight. */
  lemma EntryKeepsInFlight(t: Tables, open: set<u64>, record: seq<u8>, pid: u64, comm: Comm, userRead: UserMemory)
    requires InFlight(t, open) && t.eventId < U64_MAX
    requires |record| >= ENTER_RECORD_LEN
    requires DeviceType(CmdWord(record)) == DM_IOCTL
    requires CommandNumber(CmdWord(record)) <= LAST_COMMAND
    requires userRead(ArgPointer(record)).Success?
    requires pid !in open && |open| < MAX_ENTRIES
    ensures var u := EnterSpec(t, record, pid, comm, userRead).tables;
      InFlight(u, open + {pid}) && u.eventId == t.eventId + 1
  {
    var id := t.eventId + 1;
    assert id !in t.inflightEvents;
    assert Admitted(t, record, pid, userRead);
    EnterSucceedsIffAdmitted(t, record, pid, comm, userRead);
    EnterSucceeds(t, record, pid, comm, userRead);
    EnterPreservesConsistent(t, record, pid, comm, userRead);
  }

  /** The exit of a pid in flight takes that pid out of flight. */
  lemma ReturnKeepsInFlight(t: Tables, open: set<u64>, record: seq<u8>, pid: u64)
    requires InFlight(t, open)
    requires |record| >= RET_OFFSET + U64_SIZE
    requires pid in open
    ensures var u := ExitSpec(t, record, pid).tables;
      InFlight(u, open - {pid}) && u.eventId == t.eventId
  {
    ExitRetires(t, record, pid);
    ExitPreservesConsistent(t, record, pid);
  }

  /**
    The induction behind `InterleavedCallsDrain`: while the pids in flight
    are exactly `open`, the rest of a well-paired trace drains both maps.
   */
  lemma {:induction false} WellPairedDrains(t: Tables, open: set<u64>, steps: seq<Step>)
    requires InFlight(t, open)
    requires WellPaired(open, steps)
    requires t.eventId + Entries(steps) <= U64_MAX
    ensures var r := Run(t, steps);
      r.inflightEvents == map[] && r.pidToId == map[] && r.eventId == t.eventId + Entries(steps)
    decreases |steps|
  {
    if steps == [] {
      assert |t.pidToId| == 0;
    } else {
      match steps[0]
      case Entry(record, pid, comm, userRead) =>
        EntryKeepsInFlight(t, open, record, pid, comm, userRead);
        WellPairedDrains(EnterSpec(t, record, pid, comm, userRead).tables, open + {pid}, steps[1..]);
      case Return(record, pid) =>
        ReturnKeepsInFlight(t, open, record, pid);
        WellPairedDrains(ExitSpec(t, record, pid).tables, open - {pid}, steps[1..]);
    }
  }

  /**
    Device-mapper calls on distinct pids whose entries and exits interleave
    freely, at most 1024 in flight at a time, starting from empty maps, leave
    both maps empty once every call has returned; the counter has issued one
    id per call.
   */
  lemma InterleavedCallsDrain(t: Tables, steps: seq<Step>)
    requires t.inflightEvents == map[] && t.pidToId == map[]
    requires WellPaired({}, steps)
    requires t.eventId + Entries(steps) <= U64_MAX
    ensures var r := Run(t, steps);
      r.inflightEvents == map[] && r.pidToId == map[] && r.eventId == t.eventId + Entries(steps)
  {
    WellPairedDrains(t, {}, steps);
  }
}
