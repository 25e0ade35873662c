/**
  The device-mapper control commands (the `DM_*_CMD` numbers of the Linux
  `dm-ioctl.h` UAPI header) and their classification from a raw number.
 */
module DmIoctlCommands {
  import opened Wrappers
  import opened MachineInts

  datatype DmIoctlCommand =
    // top level commands
    | DmVersionCmd | DmRemoveAllCmd | DmListDevicesCmd
    // device level commands
    | DmDevCreateCmd | DmDevRemoveCmd | DmDevRenameCmd | DmDevSuspendCmd | DmDevStatusCmd | DmDevWaitCmd
    // table level commands
    | DmTableLoadCmd | DmTableClearCmd | DmTableDepsCmd | DmTableStatusCmd
    // added later
    | DmListVersionsCmd | DmTargetMsgCmd | DmDevSetGeometryCmd | DmDevArmPollCmd | DmDevGetTargetVersionCmd

  /** The highest command number the enumeration knows. */
  const LAST_COMMAND: u32 := 17

  /** The `#[repr(u32)]` discriminant, `c as u32`. */
  function Discriminant(c: DmIoctlCommand): (v: u32)
    ensures v <= LAST_COMMAND
  {
    match c
    case DmVersionCmd => 0
    case DmRemoveAllCmd => 1
    case DmListDevicesCmd => 2
    case DmDevCreateCmd => 3
    case DmDevRemoveCmd => 4
    case DmDevRenameCmd => 5
    case DmDevSuspendCmd => 6
    case DmDevStatusCmd => 7
    case DmDevWaitCmd => 8
    case DmTableLoadCmd => 9
    case DmTableClearCmd => 10
    case DmTableDepsCmd => 11
    case DmTableStatusCmd => 12
    case DmListVersionsCmd => 13
    case DmTargetMsgCmd => 14
    case DmDevSetGeometryCmd => 15
    case DmDevArmPollCmd => 16
    case DmDevGetTargetVersionCmd => 17
  }

  /**
    `DmIoctlCommand::from_u32`: a number up to 17 is reinterpreted as the
    variant with that discriminant; any larger number is not a command.
   */
  function FromU32(value: u32): (r: Option<DmIoctlCommand>)
    ensures r.Some? <==> value <= LAST_COMMAND
    ensures r.Some? ==> Discriminant(r.value) == value
  {
    match value
    case 0 => Some(DmVersionCmd)
    case 1 => Some(DmRemoveAllCmd)
    case 2 => Some(DmListDevicesCmd)
    case 3 => Some(DmDevCreateCmd)
    case 4 => Some(DmDevRemoveCmd)
    case 5 => Some(DmDevRenameCmd)
    case 6 => Some(DmDevSuspendCmd)
    case 7 => Some(DmDevStatusCmd)
    case 8 => Some(DmDevWaitCmd)
    case 9 => Some(DmTableLoadCmd)
    case 10 => Some(DmTableClearCmd)
    case 11 => Some(DmTableDepsCmd)
    case 12 => Some(DmTableStatusCmd)
    case 13 => Some(DmListVersionsCmd)
    case 14 => Some(DmTargetMsgCmd)
    case 15 => Some(DmDevSetGeometryCmd)
    case 16 => Some(DmDevArmPollCmd)
    case 17 => Some(DmDevGetTargetVersionCmd)
    case _ => None
  }

  /** Every variant survives the trip through its number. */
  lemma FromU32OfDiscriminant(c: DmIoctlCommand)
    ensures FromU32(Discriminant(c)) == Some(c)
  {
  }

  /** The eighteen discriminants are pairwise distinct. */
  lemma DiscriminantInjective(c: DmIoctlCommand, d: DmIoctlCommand)
    ensures Discriminant(c) == Discriminant(d) ==> c == d
  {
  }

  /** Classification is injective on the numbers it accepts. */
  lemma FromU32Injective(v: u32, w: u32)
    requires FromU32(v).Some? && FromU32(v) == FromU32(w)
    ensures v == w
  {
  }
}
