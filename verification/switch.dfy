/** The switch platform: a status key toggled between an on and an off value. */
module Switch {
  import opened Values
  import opened Patterns

  /** A `SWITCH_TYPES` entry's `switch_on` and `switch_off` values (`Null` when absent). */
  datatype Description = Description(on: Value, off: Value)

  /** `is_on`: the switch's status value equals the on value. */
  predicate IsOn(d: Description, status: Status, kind: string)
  {
    GetOrNone(status, kind) == d.on
  }

  /**
   `async_turn_on`: once the device applied it the switch is on, and no
   other status key has changed.
   */
  function TurnOn(d: Description, kind: string): (cmds: seq<Command>)
    ensures forall status :: IsOn(d, ApplyCommands(status, cmds), kind)
    ensures forall status, k :: k != kind ==> GetOrNone(ApplyCommands(status, cmds), k) == GetOrNone(status, k)
  {
    SetOne(kind, d.on)
  }

  /**
   `async_turn_off`: once the device applied it the switch is off exactly
   when the off value differs from the on value, and no other status key
   has changed.
   */
  function TurnOff(d: Description, kind: string): (cmds: seq<Command>)
    ensures forall status :: !IsOn(d, ApplyCommands(status, cmds), kind) <==> d.off != d.on
    ensures forall status, k :: k != kind ==> GetOrNone(ApplyCommands(status, cmds), k) == GetOrNone(status, k)
  {
    SetOne(kind, d.off)
  }

  /**
   The unique id `{model}-{DeviceId}-{kind.lower()}`, computed after the
   `PhilipsEntity` constructor: a missing `DeviceId` raises its `KeyError`.
   */
  function UniqueId(model: string, status: Status, keys: EntityKeys, kind: string, containerStr: Value -> string)
    : (r: Result<string, IdError>)
    ensures "DeviceId" !in status ==> r == Err(MissingKey("DeviceId"))
    ensures r != Err(PlatformNotReady)
    ensures r.Ok? <==> EntityInit(status, keys).Ok?
    ensures r.Ok? ==> r.value == model + "-" + PyStr(status["DeviceId"], containerStr) + "-" + AsciiLower(kind)
  {
    EntityUniqueId(model, status, keys, Some(AsciiLower(kind)), containerStr)
  }
}
