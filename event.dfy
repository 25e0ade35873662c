/** The correlation record stored in the in-flight table. */
module Events {
  import opened MachineInts
  import opened DmIoctlCommands

  const TASK_COMM_LEN: nat := 16

  /** The `[u8; 16]` short process name `bpf_get_current_comm` yields. */
  type Comm = s: seq<u8> | |s| == TASK_COMM_LEN
    witness [0, 0, 0, 0, 0, 0, 0, 0, 0, 0, 0, 0, 0, 0, 0, 0]

  datatype Event = Event(id: u64, pid: u64, comm: Comm, cmd: DmIoctlCommand)

  /** `Event::new`: every field takes the argument of the same name. */
  function NewEvent(id: u64, pid: u64, comm: Comm, cmd: DmIoctlCommand): (e: Event)
    ensures e.id == id && e.pid == pid && e.cmd == cmd
    ensures e.comm == comm && |e.comm| == TASK_COMM_LEN
  {
    Event(id, pid, comm, cmd)
  }
}
