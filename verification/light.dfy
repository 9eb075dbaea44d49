/**
 The light platform: a light is either switched between an on and an off
 value, or dimmable, in which case the device reports and takes a level in
 percent while Home Assistant speaks of a brightness in 0..255.
 */
module Light {
  import opened Values
  import opened Patterns
  import opened Rounding

  /** A `LIGHT_TYPES` entry; `dimmable` is `Null` when the entry has none. */
  datatype Description = Description(on: Value, off: Value, dimmable: Value)

  datatype ColorMode = BrightnessMode | OnOffMode

  /** What evaluating a property or handling a call raised. */
  datatype LightError = TypeError | KeyError

  /** A missing `dimmable` is replaced by `False`; after that only its truth value matters. */
  predicate Dimmable(d: Description)
  {
    Truthy(if d.dimmable == Null then Bool(false) else d.dimmable)
  }

  function ColorModeOf(d: Description): (m: ColorMode)
    ensures m == BrightnessMode <==> Dimmable(d)
    ensures d.dimmable == Null ==> m == OnOffMode
  {
    if Dimmable(d) then BrightnessMode else OnOffMode
  }

  /**
   `is_on`: a dimmable light is on when its level is positive (comparing
   anything but a number with `0` raises); any other light is on when its
   value equals the on value.
   */
  function IsOn(d: Description, status: Status, kind: string): (r: Result<bool, LightError>)
    ensures !Dimmable(d) ==> r == Ok(GetOrNone(status, kind) == d.on)
    ensures Dimmable(d) ==> (r.Err? <==> AsInt(GetOrNone(status, kind)).None?)
    ensures Dimmable(d) && r.Ok? ==> (r.value <==> AsInt(GetOrNone(status, kind)).value > 0)
  {
    if Dimmable(d) then
      match AsInt(GetOrNone(status, kind))
      case None => Err(TypeError)
      case Some(level) => Ok(level > 0)
    else Ok(GetOrNone(status, kind) == d.on)
  }

  /** `brightness`: `round(255 * level / 100)` for a dimmable light, `None` otherwise. */
  function Brightness(d: Description, status: Status, kind: string): (r: Result<Option<int>, LightError>)
    ensures !Dimmable(d) ==> r == Ok(None)
    ensures Dimmable(d) ==> (r.Err? <==> AsInt(GetOrNone(status, kind)).None?)
    ensures Dimmable(d) && r.Ok? ==>
              (r.value.Some? && 2 * Abs(255 * AsInt(GetOrNone(status, kind)).value - 100 * r.value.value) <= 100)
  {
    if Dimmable(d) then
      match AsInt(GetOrNone(status, kind))
      case None => Err(TypeError)
      case Some(level) => Ok(Some(RoundHalfEven(255 * level, 100)))
    else Ok(None)
  }

  /** A level in 0..100 gives a brightness in 0..255. */
  lemma BrightnessRange(level: int)
    requires 0 <= level <= 100
    ensures 0 <= RoundHalfEven(255 * level, 100) <= 255
  {
    var b := RoundHalfEven(255 * level, 100);
    if b < 0 {
      MulAtLeast(100, -b);
    } else if b > 255 {
      MulAtLeast(100, b - 255);
    }
  }

  /**
   `async_turn_on` as written: a dimmable light sends `int(100 * B / 255)`
   for the requested brightness `B` (a missing one raises `KeyError`); any
   other light sends its on value.
   */
  function TurnOnAsWritten(d: Description, kind: string, brightness: Option<int>): (r: Result<seq<Command>, LightError>)
    ensures !Dimmable(d) ==> r == Ok([SetValue(kind, d.on)])
    ensures Dimmable(d) ==> (r.Err? <==> brightness.None?)
    ensures Dimmable(d) && brightness.Some? ==>
              r == Ok([SetValue(kind, Int(TruncDiv(100 * brightness.value, 255)))])
  {
    if Dimmable(d) then
      match brightness
      case None => Err(KeyError)
      case Some(b) => Ok([SetValue(kind, Int(TruncDiv(100 * b, 255)))])
    else Ok([SetValue(kind, d.on)])
  }

  /** A brightness in 0..255 is sent as a level in 0..100. */
  lemma TurnOnLevelRange(d: Description, kind: string, brightness: int)
    requires Dimmable(d) && 0 <= brightness <= 255
    ensures TurnOnAsWritten(d, kind, Some(brightness)) == Ok([SetValue(kind, Int(TruncDiv(100 * brightness, 255)))])
    ensures 0 <= TruncDiv(100 * brightness, 255) <= 100
  {
    var l := TruncDiv(100 * brightness, 255);
    if l > 100 {
      MulAtLeast(255, l - 100);
    }
  }

  /**
   As written the two scalings do not invert each other: a light at level
   99 reports brightness 252, and turning it on at that brightness sends
   level 98.
   */
  lemma TurnOnAsWrittenLosesLevel(d: Description, kind: string, status: Status)
    requires Dimmable(d) && GetOrNone(status, kind) == Int(99)
    ensures Brightness(d, status, kind) == Ok(Some(252))
    ensures TurnOnAsWritten(d, kind, Some(252)) == Ok([SetValue(kind, Int(98))])
  {
  }

  /** `async_turn_on` with the level rounded to nearest, as the brightness is. */
  function TurnOn(d: Description, kind: string, brightness: Option<int>): (r: Result<seq<Command>, LightError>)
    ensures !Dimmable(d) ==> r == Ok([SetValue(kind, d.on)])
    ensures Dimmable(d) ==> (r.Err? <==> brightness.None?)
    ensures Dimmable(d) && brightness.Some? ==>
              (r.Ok? && |r.value| == 1 && r.value[0].SetValue? && r.value[0].key == kind && r.value[0].value.Int?
               && 2 * Abs(100 * brightness.value - 255 * r.value[0].value.i) <= 255)
    ensures !Dimmable(d) ==> r.Ok? && forall status :: IsOn(d, ApplyCommands(status, r.value), kind) == Ok(true)
  {
    if Dimmable(d) then
      match brightness
      case None => Err(KeyError)
      case Some(b) => Ok([SetValue(kind, Int(RoundHalfEven(100 * b, 255)))])
    else Ok(SetOne(kind, d.on))
  }

  /**
   With nearest rounding the round trip holds: turning a dimmable light on
   at the brightness it reports sends the level it is at.
   */
  lemma BrightnessRoundTrip(d: Description, status: Status, kind: string)
    requires Dimmable(d) && AsInt(GetOrNone(status, kind)).Some?
    ensures Brightness(d, status, kind).Ok?
    ensures TurnOn(d, kind, Brightness(d, status, kind).value) ==
              Ok([SetValue(kind, Int(AsInt(GetOrNone(status, kind)).value))])
  {
    var level := AsInt(GetOrNone(status, kind)).value;
    var b := RoundHalfEven(255 * level, 100);
    assert 2 * Abs(100 * b - 255 * level) <= 100;
    assert 2 * Abs(100 * b - 255 * level) < 255;
    RoundHalfEvenNear(100 * b, 255, level);
  }

  /**
   `async_turn_off` always sends the off value: once the device applied it,
   `is_on` reads what the off value alone says, which for a switched light
   is off exactly when the off value differs from the on value.
   */
  function TurnOff(d: Description, kind: string): (cmds: seq<Command>)
    ensures forall status :: IsOn(d, ApplyCommands(status, cmds), kind) == IsOn(d, map[kind := d.off], kind)
    ensures !Dimmable(d) ==> forall status :: IsOn(d, ApplyCommands(status, cmds), kind) == Ok(d.off == d.on)
  {
    SetOne(kind, d.off)
  }

  /** A dimmable light at a level it was sent is on exactly when the level is positive. */
  lemma DimmedRoundTrip(d: Description, status: Status, kind: string, level: int)
    requires Dimmable(d)
    ensures IsOn(d, status[kind := Int(level)], kind) == Ok(level > 0)
    ensures Brightness(d, status[kind := Int(level)], kind) == Ok(Some(RoundHalfEven(255 * level, 100)))
  {
  }

  /**
   The unique id `{model}-{DeviceId}-{kind.lower()}`, computed after the
   `PhilipsEntity` constructor: a missing `DeviceId` raises its `KeyError`.
   */
  function UniqueId(model: string, status: Status, keys: EntityKeys, kind: string, containerStr: Value -> string)
    : (r: Result<string, IdError>)
    ensures "DeviceId" !in status ==> r == Err(MissingKey("DeviceId"))
    ensures r != Err(PlatformNotReady)
    ensures r.Ok? <==> EntityInit(status, keys).Ok?
    ensures r.Ok? ==> r.value == model + "-" + PyStr(status["DeviceId"], containerStr) + "-" + AsciiLower(kind)
  {
    EntityUniqueId(model, status, keys, Some(AsciiLower(kind)), containerStr)
  }
}
