/**
 The YAML-configured CoAP fan platform: power, presets, the humidifier's
 `set_function` service, state attributes, and the registration of each
 class's services along the model class's MRO.
 */
module CoapFan {
  import opened Values
  import OrderedMap
  import opened Patterns
  import Classes
  import Constants

  /** `is_on`: `status.get("pwr") == "1"`. */
  predicate IsOn(status: Status)
  {
    GetOrNone(status, Constants.Power) == Str("1")
  }

  /** `preset_mode`: the first preset whose pattern the status matches. */
  function PresetMode(presets: Table, status: Status): (r: Option<string>)
    ensures IsSelection(status, presets, r)
  {
    Selected(status, presets)
  }

  /** `async_set_preset_mode`: send the preset's pattern, which the device then matches. */
  function SetPresetMode(presets: Table, preset: string): (cmds: seq<Command>)
    ensures SendsPattern(presets, preset, cmds)
  {
    SetPatternApplies(presets, preset);
    SetPattern(presets, preset)
  }

  /** `async_turn_on`: a preset is set through its pattern, anything else powers the fan on. */
  function TurnOn(presets: Table, preset: Option<string>): (cmds: seq<Command>)
    ensures TruthyString(preset) ==> cmds == SetPresetMode(presets, preset.value)
    ensures !TruthyString(preset) ==> forall status :: IsOn(ApplyCommands(status, cmds))
  {
    if TruthyString(preset) then SetPresetMode(presets, preset.value)
    else SetOne(Constants.Power, Str("1"))
  }

  /** `async_turn_off`: once the device applied it, `is_on` is false. */
  function TurnOff(): (cmds: seq<Command>)
    ensures forall status :: !IsOn(ApplyCommands(status, cmds))
  {
    SetOne(Constants.Power, Str("0"))
  }

  /**
   `async_set_function`: the two service values map to the function codes
   `"P"` and `"PH"`; any other value sends nothing.
   */
  function SetFunction(fn: string): (cmds: seq<Command>)
    ensures |cmds| <= 1
    ensures cmds != [] <==> fn in {Constants.FunctionPurification, Constants.FunctionPurificationHumidification}
    ensures forall c :: c in cmds ==> c.SetValue? && c.key == Constants.Function
    ensures fn == Constants.FunctionPurification ==> cmds == [SetValue(Constants.Function, Str("P"))]
    ensures fn == Constants.FunctionPurificationHumidification ==> cmds == [SetValue(Constants.Function, Str("PH"))]
  {
    if fn == Constants.FunctionPurification then [SetValue(Constants.Function, Str("P"))]
    else if fn == Constants.FunctionPurificationHumidification then [SetValue(Constants.Function, Str("PH"))]
    else []
  }

  /**
   The codes `async_set_function` sends are exactly the keys of the
   function map the attributes present, each service value sends the code
   the attributes then name after it, and the two send different codes.
   */
  lemma SetFunctionCodes(service: string)
    ensures forall c :: c in SetFunction(service) ==>
              c.value.Str? && c.value.s in Constants.FunctionMap
    ensures SetFunction(Constants.FunctionPurification) != [] &&
            Constants.FunctionMap[SetFunction(Constants.FunctionPurification)[0].value.s] == "Purification"
    ensures SetFunction(Constants.FunctionPurificationHumidification) != [] &&
            Constants.FunctionMap[SetFunction(Constants.FunctionPurificationHumidification)[0].value.s]
              == "Purification and Humidification"
    ensures SetFunction(Constants.FunctionPurification) != SetFunction(Constants.FunctionPurificationHumidification)
    ensures forall code :: code in Constants.FunctionMap ==>
              exists fn :: fn in {Constants.FunctionPurification, Constants.FunctionPurificationHumidification}
                           && SetFunction(fn) == [SetValue(Constants.Function, Str(code))]
  {
    Constants.FunctionMapKeys();
    forall code | code in Constants.FunctionMap
      ensures exists fn :: fn in {Constants.FunctionPurification, Constants.FunctionPurificationHumidification}
                           && SetFunction(fn) == [SetValue(Constants.Function, Str(code))]
    {
      if code == "P" {
        assert SetFunction(Constants.FunctionPurification) == [SetValue(Constants.Function, Str(code))];
      } else {
        assert SetFunction(Constants.FunctionPurificationHumidification) == [SetValue(Constants.Function, Str(code))];
      }
    }
  }

  /**
   `device_state_attributes`: raises exactly when a contributing attribute's value cannot be
   tested against its dict, and otherwise has exactly the keys of the
   attributes whose Philips key the status holds.
   */
  function DeviceStateAttributes(attributes: seq<AttrSpec>, status: Status): (r: Result<OrderedMap.OMap<string, Value>, HashError>)
    ensures r.Err? <==> exists i :: 0 <= i < |attributes| && Raises(status, attributes, i)
    ensures r.Ok? ==> forall k :: k in OrderedMap.Keys(r.value) <==>
              exists i :: 0 <= i < |attributes| && attributes[i].key == k && Contributes(status, attributes, i)
  {
    AttributesRaise(status, attributes);
    AttributesKeysAll(status, attributes);
    Attributes(status, attributes)
  }

  /** The unique id `{model}-{DeviceId}`; a missing `DeviceId` raises `PlatformNotReady`. */
  function UniqueId(model: string, status: Status, containerStr: Value -> string): (r: Result<string, IdError>)
    ensures r.Err? <==> "DeviceId" !in status
    ensures r.Ok? ==> r.value == model + "-" + PyStr(status["DeviceId"], containerStr)
  {
    DeviceUniqueId(model, status, None, containerStr)
  }

  /**
   `_register_services` as written: for every class of the reversed MRO,
   `getattr(cls, "register_services", None)` is called. A class without a
   method of its own resolves to the one it inherits, so that method runs
   again. Each class carries the services its own method registers.
   */
  function RegisterServicesAsWritten<S>(h: Classes.Hierarchy<seq<S>>): seq<S>
    requires Classes.WellFormed(h)
  {
    Classes.CollectList(h)
  }

  /** `_register_services` as intended: each class's own method once, base classes first. */
  function RegisterServices<S>(h: Classes.Hierarchy<seq<S>>): seq<S>
  {
    Classes.Flatten(Classes.OwnValues(h))
  }

  /**
   Both register the same services; the intended walk registers each
   defining class's services exactly once, in base-first order.
   */
  lemma RegisterServicesMembers<S>(h: Classes.Hierarchy<seq<S>>, s: S)
    requires Classes.WellFormed(h)
    ensures s in RegisterServices(h) <==> s in RegisterServicesAsWritten(h)
  {
    Classes.CollectListMember(h, s);
    Classes.FlattenMember(Classes.OwnValues(h), s);
    if s in RegisterServices(h) {
      var k :| 0 <= k < |Classes.OwnValues(h)| && s in Classes.OwnValues(h)[k];
      Classes.OwnValuesMember(h, Classes.OwnValues(h)[k]);
    }
    if exists j :: 0 <= j < |h| && h[j].own.Some? && s in h[j].own.value {
      var j :| 0 <= j < |h| && h[j].own.Some? && s in h[j].own.value;
      Classes.OwnValuesMember(h, h[j].own.value);
      var k :| 0 <= k < |Classes.OwnValues(h)| && Classes.OwnValues(h)[k] == h[j].own.value;
    }
  }

  /**
   `PhilipsAC1214` defines no `register_services` and inherits the one of
   `PhilipsGenericCoAPFan`, which registers the child-lock, display-backlight
   and light-brightness services; `set_light_brightness` stands for those
   five here. Positions are the MRO `PhilipsAC1214, PhilipsGenericCoAPFan,
   PhilipsGenericFan` (the classes in between inherit the base method, which
   registers nothing).
   */
  function InheritingModel(): (h: Classes.Hierarchy<seq<string>>)
    ensures Classes.WellFormed(h)
  {
    [Classes.Cls(None, [0, 1, 2]), Classes.Cls(Some(["set_light_brightness"]), [1, 2]), Classes.Cls(Some([]), [2])]
  }

  /** As written, the inherited method runs once for its own class and once more for the model class. */
  lemma RegisterServicesTwice()
    ensures RegisterServicesAsWritten(InheritingModel()) == ["set_light_brightness", "set_light_brightness"]
  {
    var w: seq<seq<string>> := Classes.Walk(InheritingModel(), []);
    InheritingWalk();
    var e: seq<seq<string>> := [[]];
    assert Classes.Flatten(e) == [] by {
      assert e[..0] == [];
    }
    var e2: seq<seq<string>> := [[], ["set_light_brightness"]];
    assert e2[..1] == e;
    assert w[..2] == e2;
  }

  /** The reversed walk finds the empty base list, then the inherited list twice. */
  lemma InheritingWalk()
    ensures Classes.Walk(InheritingModel(), []) == [[], ["set_light_brightness"], ["set_light_brightness"]]
  {
    var h := InheritingModel();
    assert Classes.FirstDefiner(h, [2]) == Some(0);
    assert Classes.FirstDefiner(h, [1, 2]) == Some(0);
    assert Classes.FirstDefiner(h, [0, 1, 2]) == Some(1) by {
      assert [0, 1, 2][1..] == [1, 2];
    }
    assert Classes.Getattr(h, 2) == Some([]);
    assert Classes.Getattr(h, 1) == Some(["set_light_brightness"]);
    assert Classes.Getattr(h, 0) == Some(["set_light_brightness"]);
  }

  /** Walking the classes' own methods registers the light services once. */
  lemma RegisterServicesOnce()
    ensures RegisterServices(InheritingModel()) == ["set_light_brightness"]
  {
    var h := InheritingModel();
    var h2 := h[..2];
    var h1 := h2[..1];
    assert h1 == [Classes.Cls(None, [0, 1, 2])];
    assert Classes.OwnValues(h1) == [] by {
      assert |h1[..0]| == 0;
    }
    assert Classes.OwnValues(h2) == [["set_light_brightness"]];
    var own: seq<seq<string>> := Classes.OwnValues(h);
    assert own == [[], ["set_light_brightness"]];
    var e: seq<seq<string>> := [[]];
    assert Classes.Flatten(e) == [] by {
      assert e[..0] == [];
    }
    assert own[..1] == e;
  }
}
