# dm-tracer correlation engine, modelled in Dafny

dm-tracer attaches two eBPF tracepoint programs to the `ioctl` system call.
`sys_enter_ioctl` reads the command word from the raw tracepoint record,
keeps only device-mapper commands (device type `0xfd`), copies the caller's
`dm_ioctl` control block from user memory, issues a correlation id from the
one-slot `EVENT_ID` counter, classifies the command number into a
`DmIoctlCommand`, and records the event in two bounded BPF hash maps:
`INFLIGHT_EVENTS` (id to `Event`) and `PID_TO_ID` (pid_tgid to id), each of
capacity 1024. `sys_exit_ioctl` reads the return value, looks the calling
pid up in `PID_TO_ID` and retires both entries.

The model has these parts:

- `MachineInts`: `u8`, `u32`, `u64` and `i64` as ranges of `int`. It also has `as u32` truncation and `wrapping_add`.
- `TracepointRecord`: the raw record as `seq<u8>`. `read_at::<u64>` is a little-endian read that fails with `-EFAULT` when the record is too short. `LeBytes` is its inverse.
- `IoctlNumber`: the Linux ioctl word layout (`_IOC_NRSHIFT = 0`, `_IOC_TYPESHIFT = 8`), the decoding of the device type and the command number, and `DM_IOCTL`.
- `DmIoctlCommands`: the 18-variant enum, its discriminants and `from_u32`.
- `Events`: `Event` and `Event::new`. `comm` is always 16 bytes.
- `BpfHashMap`: `insert` with flag `BPF_ANY` and `remove` on a map of 1024 entries. A full map refuses a new key with `-E2BIG`. Removing an absent key fails with `-ENOENT`.
- `EventCounter`: `issue_event_id`, as written and as intended (see Findings).
- `TracerSpec`: one run of each handler, as a pure function over the three maps (`EnterSpec`, `ExitSpec`). It also has the correlation invariant `Consistent` and the entry log summary `Notice`.
- `TracerProperties`: lemmas about single runs and pairs of runs, including invariant preservation.
- `TracerScenarios`: concrete byte-level records for a device-create call and a foreign ioctl.
- `Tracer`: class `DmTracer`, holding the counter and both maps as fields. Its `Enter` and `Exit` methods are the handlers' early-return code, proved equal to `EnterSpec` and `ExitSpec`.

How each handler run ends is an `Outcome`:

- `Ok(code)` and `Err(code)` are the two arms of the handler's `Result<u32, u32>`.
- `Panicked` is an `unwrap()` that failed.

The inserts are not atomic. When the second insert fails, the first insert's event stays stored.

Some behaviours of the code are worth stating explicitly:

- A full table makes `unwrap()` panic (`Panicked`). The event is not dropped quietly. When only `PID_TO_ID` is full, the event has already been stored.
- An unrecognised command number still advances the counter, because the id is issued before the number is classified.
- A foreign device type is returned as the error value, `Err(device_type)`.
- A second entry for the same pid orphans the earlier event. So an id in `INFLIGHT_EVENTS` need not have a pid pointing at it. `Consistent` states only the direction from pids to events.

## Model

| member | source | states |
|---|---|---|
| MachineInts.AsU32 | dm-tracer-ebpf/src/main.rs:72 | `n as u32` keeps the low 32 bits: the result is congruent to `n` modulo 2^32; it equals `n` for non-negative values that fit and `n + 2^32` for negative error codes |
| MachineInts.WrappingAdd | dm-tracer-ebpf/src/main.rs:28 | the increment line 28 evidently intends for the counter slot: `u64` addition that is exact below 2^64 and wraps by 2^64 above |
| TracepointRecord.ReadAt | dm-tracer-ebpf/src/main.rs:68-74 | a u64 field read succeeds exactly when the record holds the 8 bytes at the offset; it then yields their little-endian value; otherwise it fails with `-EFAULT` |
| TracepointRecord.ReadAtSpellsField | dm-tracer-ebpf/src/main.rs:61-63 | the value read is the number whose little-endian bytes are exactly the record's field bytes |
| TracepointRecord.ReadAtWritten | dm-tracer-ebpf/src/main.rs:51-63 | a u64 written as 8 little-endian bytes at any offset reads back unchanged |
| TracepointRecord.LeBytesOfLeValue | dm-tracer-ebpf/src/main.rs:61-63 | encoding the value of any byte string back to its length returns the same bytes |
| IoctlNumber.DeviceType | dm-tracer-ebpf/src/main.rs:75 | the device type is below 256 |
| IoctlNumber.CommandNumber | dm-tracer-ebpf/src/main.rs:79 | the command number is below 256 |
| IoctlNumber.ShiftAndMaskIsDivMod | dm-tracer-ebpf/src/main.rs:75-79 | on 64-bit words, `(cmd >> 8) & 0xff` and `cmd & 0xff` equal the division and remainder by 256 the model decodes with |
| IoctlNumber.Ioc | dm-tracer-ebpf/src/main.rs:75-79 | `_IOC`: the command word built from its upper bits, device type and command number, the layout the decode at lines 75 and 79 assumes; `DecodeIoc` and `IocOfDecode` state that it and the decode are inverse |
| IoctlNumber.DecodeIoc | dm-tracer-ebpf/src/main.rs:75-79 | decoding an ioctl number built from a device type and a command number returns both of them |
| IoctlNumber.IocOfDecode | dm-tracer-ebpf/src/main.rs:75-79 | every command word is the ioctl number rebuilt from its decoded fields and its upper bits |
| DmIoctlCommands.Discriminant | dm-tracer-common/src/dm_ioctl_commands.rs:5-27 | every discriminant is at most 17 |
| DmIoctlCommands.FromU32 | dm-tracer-common/src/dm_ioctl_commands.rs:32-38 | `from_u32(v)` is `Some` exactly when `v <= 17`, and then names the variant whose discriminant is `v` |
| DmIoctlCommands.FromU32OfDiscriminant | dm-tracer-common/src/dm_ioctl_commands.rs:7-38 | round trip: `from_u32(c as u32) == Some(c)` for every variant |
| DmIoctlCommands.DiscriminantInjective | dm-tracer-common/src/dm_ioctl_commands.rs:7-27 | the 18 discriminants are pairwise distinct |
| DmIoctlCommands.FromU32Injective | dm-tracer-common/src/dm_ioctl_commands.rs:32-38 | two numbers that classify to the same command are equal |
| Events.NewEvent | dm-tracer-common/src/event.rs:13-20 | `Event::new` keeps the id, pid, comm and classified command it is given, and comm is 16 bytes |
| BpfHashMap.Update | dm-tracer-ebpf/src/main.rs:102-103 | an insert succeeds exactly when the key is present or the map has room; it then maps the key to the value; otherwise it fails with `-E2BIG` for a new key; the map never grows past 1024 entries |
| BpfHashMap.Delete | dm-tracer-ebpf/src/main.rs:177-178 | a remove succeeds exactly when the key is present; it then drops that key, keeps every other entry and shrinks the map by one; otherwise it fails with `-ENOENT` |
| EventCounter.Issue | dm-tracer-ebpf/src/main.rs:26-30 | the intended issuance returns `slot + 1`, or 0 once the slot holds 2^64 - 1 |
| EventCounter.IssueManyIncreasing | dm-tracer-ebpf/src/main.rs:26-30 | below the 64-bit boundary, n successive issuances return slot+1 … slot+n: strictly increasing, hence distinct |
| EventCounter.IssueAsWritten | dm-tracer-ebpf/src/main.rs:28 | the counter update as written: slot 0 receives, and the call returns, the `u64` stored just after it; `IssueAsWrittenRepeats` and `IssueAsWrittenFromZero` state what that does to the ids |
| EventCounter.IssueAsWrittenRepeats | dm-tracer-ebpf/src/main.rs:28 | as written, the issued id ignores the counter, and issuing twice with the neighbouring memory unchanged repeats the id |
| EventCounter.IssueAsWrittenFromZero | dm-tracer-ebpf/src/main.rs:28 | from a zero slot followed by zero memory, the as-written code issues 0 twice where the intended code issues 1 then 2 |
| TracerSpec.Version0 | dm-tracer-ebpf/src/main.rs:109 | `version[0]` is the 32-bit little-endian word at the start of the control block |
| TracerSpec.Notice | dm-tracer-ebpf/src/main.rs:107-128 | the entry log summary, by command number: version (0, with `version[0]`), table (9, 12), target message (14), table deps (11), device (3, 4), list devices (2); the other ten numbers fall back to a line naming the number |
| TracerSpec.EnterSpec | dm-tracer-ebpf/src/main.rs:67-133 | one run of the entry handler over the three maps: the counter moves at most one issuance on; `PID_TO_ID` is written only by a run that returns `Ok(0)`; a run that returns `Err` writes no map; a summary is logged exactly when the run succeeds. The `TracerProperties` lemmas state each branch |
| TracerSpec.ExitSpec | dm-tracer-ebpf/src/main.rs:159-183 | one run of the exit handler over the maps: the counter never moves; an `Err` run changes nothing and logs nothing; an `Ok(0)` run removed the calling pid from `PID_TO_ID` and logs the value read at offset 16. `ExitUnmatched`, `ExitRetires` and `ExitNeverPanics` state each branch |
| TracerSpec.Consistent | dm-tracer-ebpf/src/main.rs:99-104 | the correlation invariant: every pid in `PID_TO_ID` maps to a key of `INFLIGHT_EVENTS` whose event has that id and that pid, every stored event has its key as id, no id exceeds the counter, and both maps are within capacity. `InitialConsistent`, `ConsistentInjective`, `EnterPreservesConsistent` and `ExitPreservesConsistent` state its properties |
| TracerSpec.InitialConsistent | dm-tracer-ebpf/src/main.rs:24-37 | the freshly loaded maps (counter 0, both tables empty) satisfy the correlation invariant |
| TracerSpec.ConsistentInjective | dm-tracer-ebpf/src/main.rs:99-104 | under the invariant, `PID_TO_ID` is injective |
| TracerProperties.EnterTruncatedRecord | dm-tracer-ebpf/src/main.rs:68-87 | an entry record too short for offset 24 or 32 makes the run return `Err` with counter and both maps unchanged; too short for offset 24 gives `Err(-EFAULT as u32)` |
| TracerProperties.EnterForeignDevice | dm-tracer-ebpf/src/main.rs:75-78 | a device type other than `0xfd` returns `Err(device_type)` with nothing changed, whatever the command number |
| TracerProperties.EnterUserReadFault | dm-tracer-ebpf/src/main.rs:88-93 | a faulting control-block copy returns the fault code as `u32` with nothing changed |
| TracerProperties.EnterUnknownCommand | dm-tracer-ebpf/src/main.rs:95-98 | device type `0xfd` with command number > 17 returns `Err(number)` with both maps unchanged; the counter has advanced by one |
| TracerProperties.EnterSucceedsIffAdmitted | dm-tracer-ebpf/src/main.rs:67-133 | an entry returns `Ok(0)` exactly when both reads succeed, the device is `0xfd`, the number is ≤ 17, the copy succeeds and both maps accept their keys; every other run logs nothing |
| TracerProperties.EnterSucceeds | dm-tracer-ebpf/src/main.rs:95-104 | a successful entry issues `old + 1` (mod 2^64), sets `INFLIGHT_EVENTS[id] = Event::new(id, pid, comm, cmd)` and `PID_TO_ID[pid] = id`, leaves every other key untouched and logs the command's summary |
| TracerProperties.EnterOrphansPreviousEvent | dm-tracer-ebpf/src/main.rs:102-103 | a second successful entry for a mapped pid repoints it at the new id; the previous event stays in `INFLIGHT_EVENTS` and no pid refers to it |
| TracerProperties.EnterEventTableFull | dm-tracer-ebpf/src/main.rs:102 | with `INFLIGHT_EVENTS` full, the first `unwrap()` panics; both maps are unchanged and the counter has advanced |
| TracerProperties.EnterPidTableFull | dm-tracer-ebpf/src/main.rs:102-103 | with only `PID_TO_ID` full, the second `unwrap()` panics after the event was already stored: the inserts are not atomic |
| TracerProperties.EnterPreservesConsistent | dm-tracer-ebpf/src/main.rs:95-104 | below counter wraparound, every entry run, whatever its outcome, keeps the invariant: each pid maps to a stored event with that id and that pid, stored ids do not exceed the counter, and both maps are within capacity |
| TracerProperties.ExitTruncatedRecord | dm-tracer-ebpf/src/main.rs:160-166 | an exit record too short for offset 16 returns `Err(-EFAULT as u32)` and changes nothing |
| TracerProperties.ExitUnmatched | dm-tracer-ebpf/src/main.rs:168-174 | an exit for a pid absent from `PID_TO_ID` returns `Err(1)` and changes nothing |
| TracerProperties.ExitRetires | dm-tracer-ebpf/src/main.rs:176-182 | under the invariant, an exit for a mapped pid removes that pid and its id, keeps every other entry and the counter, logs the return value and returns `Ok(0)` |
| TracerProperties.ExitNeverPanics | dm-tracer-ebpf/src/main.rs:176-179 | under the invariant the `remove(..).unwrap()` calls never fail |
| TracerProperties.ExitPreservesConsistent | dm-tracer-ebpf/src/main.rs:168-179 | every exit run keeps the invariant |
| TracerProperties.EnterThenExitRestores | dm-tracer-ebpf/src/main.rs:99-179 | a successful entry for an unmapped pid followed by its exit restores both maps; only the counter has moved |
| TracerProperties.PairedCallsDrain | dm-tracer-ebpf/src/main.rs:67-183 | any sequence of device-mapper calls, each traced entry-then-exit from empty maps, leaves both maps empty and advances the counter once per call |
| TracerProperties.EntryKeepsInFlight | dm-tracer-ebpf/src/main.rs:95-104 | an accepted entry for a pid not in flight, with fewer than 1024 pids in flight, adds exactly that pid to `PID_TO_ID`, keeps the invariant and the two maps the same size, and issues one id |
| TracerProperties.ReturnKeepsInFlight | dm-tracer-ebpf/src/main.rs:168-179 | the exit of a pid in flight removes exactly that pid from `PID_TO_ID`, keeps the invariant and the two maps the same size, and leaves the counter |
| TracerProperties.WellPairedDrains | dm-tracer-ebpf/src/main.rs:67-183 | from any state whose pids in flight are exactly the open calls, the rest of a trace of entries and exits on distinct pids that closes every call leaves both maps empty |
| TracerProperties.InterleavedCallsDrain | dm-tracer-ebpf/src/main.rs:67-183 | device-mapper calls on distinct pids whose entries and exits interleave in any order, at most 1024 in flight at a time, leave both maps empty once every call has returned, starting from empty maps; the counter has issued one id per call |
| TracerScenarios.DevCreateAccepted | dm-tracer-ebpf/src/main.rs:75-120 | from the initial maps, command word `0xfd03` is accepted as device-create with id 1, one entry in each map and the device summary |
| TracerScenarios.ForeignDeviceRejected | dm-tracer-ebpf/src/main.rs:75-78 | command word `0x10aa` returns `Err(0x10)` with nothing changed |
| TracerScenarios.DevCreateRetired | dm-tracer-ebpf/src/main.rs:168-182 | that device-create call's exit with return value 0 empties both maps and logs 0 |
| Tracer.DmTracer.constructor | dm-tracer-ebpf/src/main.rs:24-37 | the maps start with counter 0 and empty tables, which satisfy the invariant |
| Tracer.DmTracer.IssueEventId | dm-tracer-ebpf/src/main.rs:26-30 | slot 0 becomes `old + 1` (mod 2^64) and is returned |
| Tracer.DmTracer.Enter | dm-tracer-ebpf/src/main.rs:67-133 | the in-place entry handler's result, new maps and log summary are `EnterSpec` of the old maps; below wraparound it keeps the invariant |
| Tracer.DmTracer.Exit | dm-tracer-ebpf/src/main.rs:159-183 | the in-place exit handler's result, new maps and logged value are `ExitSpec` of the old maps; it keeps the invariant and does not panic under it |

## Left out

- The user-space loader (`dm-tracer/src/main.rs`) is not part of this model. It handles the rlimit, loading and attaching the programs, set-up of logging and waiting for Ctrl-C, which are all I/O.
- The `dm_ioctl` layout (`dm-tracer-common/src/dm_ioctl.rs`) is kept as 312 opaque bytes. Only `version[0]` is read, and only for the version log line.
- Concurrency is not modelled. Each handler run is one sequential step, so the non-atomic counter update and contention on the shared maps do not appear.
- The BPF helpers are inputs. `bpf_get_current_pid_tgid` and `bpf_get_current_comm` are parameters, and `bpf_probe_read_user` is a function from the user address to a snapshot or an error code. The `unwrap()` on `bpf_get_current_comm` (main.rs line 97) is therefore never taken.
- `read_at` on a real tracepoint does not check the record's length. The model assumes that a read past the end of the record fails with `-EFAULT`.
- The text of the `info!` log lines is not modelled. Only the command summary of the entry line and the logged return value of the exit line are outputs.
- The `panic_handler` loop is modelled as the `Panicked` outcome.
- The `trace_sys_enter_ioctl` and `trace_sys_exit_ioctl` wrappers turn both arms of the `Result` into the program's `u32` return value. The model keeps the `Result` arms apart in `Outcome`.
- The `get_ptr_mut(0).ok_or(1u32)` failure in `issue_event_id` cannot happen for index 0 of a one-entry array, so it is not modelled. The one-slot array is a single `u64` field.
- Hash-map behaviour beyond the 1024-entry capacity is not modelled. No eviction, per-CPU spare elements or `BPF_NOEXIST`/`BPF_EXIST` flags.
- TracerProperties.EnterPreservesConsistent: requires the counter to be below 2^64 - 1, because the source does not handle wraparound, after which an id can be reissued.
- TracerProperties.ExitRetires: requires the correlation invariant, because without it `INFLIGHT_EVENTS` may lack the id and the first `unwrap()` would panic.

## Findings

| source | as written | input that shows it | evidently intended | confidence | as-written member | corrected member |
|---|---|---|---|---|---|---|
| dm-tracer-ebpf/src/main.rs:28 | method-call precedence makes `wrapping_add(1)` advance the pointer, so slot 0 receives the u64 stored after it and that value is returned as the id | slot 0 holds 0 and the eight bytes after it are 0: the first and the second issuance both return id 0 | slot 0 becomes `old + 1` (mod 2^64) and the new value is the id, so successive ids are distinct until wraparound | high; not executed | EventCounter.IssueAsWrittenFromZero | EventCounter.IssueManyIncreasing |
