/**
 The generic CoAP fan of the config-entry integration: power, presets,
 speeds as percentages, icon and extra state attributes.

 The power key and its on/off values differ between the generic fan
 (`pwr`, `"1"`, `"0"`) and the new generic fan (`NEW_POWER`, `"ON"`,
 `"OFF"`); both are a `Power` record here. The Home Assistant helpers that
 turn a speed into a percentage and back, and the icon names, are not part
 of this model and come in as parameters.
 */
module PhilipsFan {
  import opened Values
  import OrderedMap
  import opened Patterns
  import Classes

  datatype Power = Power(key: string, on: string, off: string)

  /** The tables a fan instance collected from its class chain. */
  datatype Fan = Fan(power: Power, presets: Table, speeds: Table, attributes: seq<AttrSpec>)

  /** What `__init__` collects along the model class's MRO. */
  function Collect(power: Power, presets: Classes.Hierarchy<Table>, speeds: Classes.Hierarchy<Table>,
                   attributes: Classes.Hierarchy<seq<AttrSpec>>): (f: Fan)
    requires Classes.WellFormed(presets) && Classes.WellFormed(speeds) && Classes.WellFormed(attributes)
    ensures OrderedMap.Valid(f.presets) && OrderedMap.Valid(f.speeds)
    ensures forall a :: a in f.attributes <==>
              exists j :: 0 <= j < |attributes| && attributes[j].own.Some? && a in attributes[j].own.value
  {
    forall a ensures a in Classes.CollectList(attributes) <==>
        exists j :: 0 <= j < |attributes| && attributes[j].own.Some? && a in attributes[j].own.value {
      Classes.CollectListMember(attributes, a);
    }
    Fan(power, Classes.CollectTable(presets), Classes.CollectTable(speeds), Classes.CollectList(attributes))
  }

  /** `is_on`: the power entry of the status equals the on value. */
  predicate IsOn(f: Fan, status: Status)
  {
    GetOrNone(status, f.power.key) == Str(f.power.on)
  }

  /** `preset_mode`: the first preset whose pattern the status matches. */
  function PresetMode(f: Fan, status: Status): (r: Option<string>)
    ensures IsSelection(status, f.presets, r)
  {
    Selected(status, f.presets)
  }

  /** `async_turn_off`: once the device applied it the fan is off, unless the off value is the on value. */
  function TurnOff(f: Fan): (cmds: seq<Command>)
    ensures forall status :: IsOn(f, ApplyCommands(status, cmds)) <==> f.power.off == f.power.on
  {
    SetOne(f.power.key, Str(f.power.off))
  }

  /** `async_set_preset_mode`: send the preset's pattern, which the device then matches. */
  function SetPresetMode(f: Fan, preset: string): (cmds: seq<Command>)
    ensures SendsPattern(f.presets, preset, cmds)
  {
    SetPatternApplies(f.presets, preset);
    SetPattern(f.presets, preset)
  }

  /** `percentage_to_ordered_list_item(speeds, percentage)`. */
  type PercentageToSpeed = (seq<string>, int) -> string

  /** `ordered_list_item_to_percentage(speeds, speed)`. */
  type SpeedToPercentage = (seq<string>, string) -> int

  /** `async_set_percentage`: 0 turns the fan off; otherwise the chosen speed's pattern is sent. */
  function SetPercentage(f: Fan, percentage: int, toSpeed: PercentageToSpeed): (cmds: seq<Command>)
    ensures percentage == 0 <==> cmds == TurnOff(f)
    ensures percentage != 0 ==> cmds == SetPattern(f.speeds, toSpeed(OrderedMap.Keys(f.speeds), percentage))
  {
    if percentage == 0 then TurnOff(f)
    else SetPattern(f.speeds, toSpeed(OrderedMap.Keys(f.speeds), percentage))
  }

  /** `async_turn_on`: a preset wins over a percentage, which wins over a plain power-on. */
  function TurnOn(f: Fan, percentage: Option<int>, preset: Option<string>, toSpeed: PercentageToSpeed): (cmds: seq<Command>)
    ensures TruthyString(preset) ==> cmds == SetPresetMode(f, preset.value)
    ensures !TruthyString(preset) && TruthyInt(percentage) ==> cmds == SetPercentage(f, percentage.value, toSpeed)
    ensures !TruthyString(preset) && !TruthyInt(percentage) ==> cmds == [SetValue(f.power.key, Str(f.power.on))]
    ensures !TruthyString(preset) && !TruthyInt(percentage) ==> forall status :: IsOn(f, ApplyCommands(status, cmds))
  {
    if TruthyString(preset) then SetPresetMode(f, preset.value)
    else if TruthyInt(percentage) then SetPercentage(f, percentage.value, toSpeed)
    else SetOne(f.power.key, Str(f.power.on))
  }

  /**
   Turning the fan on never sends the power-off command, whatever
   percentage it is given: a zero percentage is falsy and falls through to
   the plain power-on.
   */
  lemma TurnOnNeverOff(f: Fan, percentage: Option<int>, preset: Option<string>, toSpeed: PercentageToSpeed)
    requires f.power.on != f.power.off
    ensures SetValue(f.power.key, Str(f.power.off)) !in TurnOn(f, percentage, preset, toSpeed)
  {
    if !TruthyString(preset) && TruthyInt(percentage) {
      assert percentage.value != 0;
    }
  }

  /** `percentage`: the percentage of the first speed whose pattern the status matches. */
  function Percentage(f: Fan, status: Status, toPercentage: SpeedToPercentage): (r: Option<int>)
    ensures r.Some? <==> Selected(status, f.speeds).Some?
    ensures r.Some? ==> r.value == toPercentage(OrderedMap.Keys(f.speeds), Selected(status, f.speeds).value)
  {
    match Selected(status, f.speeds)
    case None => None
    case Some(speed) => Some(toPercentage(OrderedMap.Keys(f.speeds), speed))
  }

  /** Speed patterns that are non-empty, have distinct keys and pairwise give some key different values. */
  predicate Distinguished(t: Table)
  {
    OrderedMap.Valid(t)
    && (forall k :: 0 <= k < |t| ==> t[k].1 != [] && OrderedMap.Valid(t[k].1))
    && (forall j, k :: 0 <= j < k < |t| ==> Disagree(t[j].1, t[k].1))
  }

  /**
   Setting a non-zero percentage and reading it back: once the device has
   applied what `async_set_percentage` sent, `percentage` reports the
   percentage of the speed that percentage was mapped to.
   */
  lemma SetPercentageThenPercentage(f: Fan, p: int, status: Status,
                                    toSpeed: PercentageToSpeed, toPercentage: SpeedToPercentage)
    requires p != 0 && Distinguished(f.speeds)
    requires toSpeed(OrderedMap.Keys(f.speeds), p) in OrderedMap.Keys(f.speeds)
    ensures var keys := OrderedMap.Keys(f.speeds);
            Percentage(f, ApplyCommands(status, SetPercentage(f, p, toSpeed)), toPercentage)
            == Some(toPercentage(keys, toSpeed(keys, p)))
  {
    var t := f.speeds;
    var keys := OrderedMap.Keys(t);
    var i :| 0 <= i < |keys| && keys[i] == toSpeed(keys, p);
    SetThenSelect(status, t, i);
    var q := t[i].1;
    assert SetPercentage(f, p, toSpeed) == [SetValues(q)];
    assert [SetValues(q)][1..] == [];
    assert ApplyCommands(status, [SetValues(q)]) == ApplyPattern(status, q);
  }

  /** The icon names `ICON.POWER_BUTTON`, `ICON.FAN_SPEED_BUTTON` and `PresetMode.ICON_MAP`. */
  datatype Icons = Icons(powerButton: string, fanSpeedButton: string, presetIcons: map<string, string>)

  /** `icon`: the power button when off, the preset's icon when it has one, the fan-speed button otherwise. */
  function Icon(f: Fan, status: Status, icons: Icons): (r: string)
    ensures !IsOn(f, status) ==> r == icons.powerButton
    ensures IsOn(f, status) ==>
              r == (var p := PresetMode(f, status);
                    if p.Some? && p.value in icons.presetIcons then icons.presetIcons[p.value] else icons.fanSpeedButton)
  {
    if !IsOn(f, status) then icons.powerButton
    else
      var preset := PresetMode(f, status);
      if preset.None? then icons.fanSpeedButton
      else if preset.value in icons.presetIcons then icons.presetIcons[preset.value]
      else icons.fanSpeedButton
  }

  /** A running fan shows the power button only if some icon it can show is that same name. */
  lemma IconShowsPower(f: Fan, status: Status, icons: Icons)
    requires icons.fanSpeedButton != icons.powerButton
    requires forall p :: p in icons.presetIcons ==> icons.presetIcons[p] != icons.powerButton
    ensures Icon(f, status, icons) == icons.powerButton <==> !IsOn(f, status)
  {
  }

  /**
   `extra_state_attributes`: raises exactly when a contributing attribute's value cannot be
   tested against its dict, and otherwise has exactly the keys of the
   attributes whose Philips key the status holds.
   */
  function ExtraStateAttributes(f: Fan, status: Status): (r: Result<OrderedMap.OMap<string, Value>, HashError>)
    ensures r.Err? <==> exists i :: 0 <= i < |f.attributes| && Raises(status, f.attributes, i)
    ensures r.Ok? ==> forall k :: k in OrderedMap.Keys(r.value) <==>
              exists i :: 0 <= i < |f.attributes| && f.attributes[i].key == k && Contributes(status, f.attributes, i)
  {
    AttributesRaise(status, f.attributes);
    AttributesKeysAll(status, f.attributes);
    Attributes(status, f.attributes)
  }

  /**
   The unique id `{model}-{DeviceId}`, computed after the `PhilipsEntity`
   constructor has read the status: a missing `DeviceId` raises that
   constructor's `KeyError`, never the `PlatformNotReady` of the `try`.
   */
  function UniqueId(model: string, status: Status, keys: EntityKeys, containerStr: Value -> string)
    : (r: Result<string, IdError>)
    ensures "DeviceId" !in status ==> r == Err(MissingKey("DeviceId"))
    ensures r != Err(PlatformNotReady)
    ensures r.Ok? <==> EntityInit(status, keys).Ok?
    ensures r.Ok? ==> r.value == model + "-" + PyStr(status["DeviceId"], containerStr)
  {
    EntityUniqueId(model, status, keys, None, containerStr)
  }

  /** The generic fan's power entry. */
  const GenericPower := Power("pwr", "1", "0")
}
