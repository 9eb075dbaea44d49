/**
 Status patterns, the commands the entities send, and the attribute
 projection shared by every fan class.

 A preset or speed is a dict of status entries; it is "selected" when the
 device status agrees with every one of them, and setting it sends the
 whole dict in one control request. Tables of presets keep the order in
 which the class chain defined them.
 */
module Patterns {
  import opened Values
  import OrderedMap

  type Pattern = OrderedMap.OMap<string, Value>

  /** Preset or speed name to its status pattern, in definition order. */
  type Table = OrderedMap.OMap<string, Pattern>

  /** A control request: `set_control_value(key, value)` or `set_control_values(data=pattern)`. */
  datatype Command = SetValue(key: string, value: Value) | SetValues(data: Pattern)

  /** `status.get(k) == v` for every entry `k, v` of the pattern. */
  predicate Matches(status: Status, p: Pattern)
  {
    forall i :: 0 <= i < |p| ==> GetOrNone(status, p[i].0) == p[i].1
  }

  /** The position of the first table entry whose pattern the status matches. */
  function FirstMatch(status: Status, t: Table): (r: Option<nat>)
    ensures r.Some? ==> r.value < |t| && Matches(status, t[r.value].1)
    ensures r.Some? ==> forall j :: 0 <= j < r.value ==> !Matches(status, t[j].1)
    ensures r.None? <==> forall j :: 0 <= j < |t| ==> !Matches(status, t[j].1)
  {
    if t == [] then None
    else if Matches(status, t[0].1) then Some(0)
    else match FirstMatch(status, t[1..])
      case None => None
      case Some(p) => Some(p + 1)
  }

  /**
   `r` names the first table entry whose pattern the status matches, and is
   `None` exactly when the status matches none of them.
   */
  predicate IsSelection(status: Status, t: Table, r: Option<string>)
  {
    (r.None? <==> forall j :: 0 <= j < |t| ==> !Matches(status, t[j].1))
    && (r.Some? ==> exists i :: 0 <= i < |t| && t[i].0 == r.value && Matches(status, t[i].1)
                               && forall j :: 0 <= j < i ==> !Matches(status, t[j].1))
  }

  /** `preset_mode` and `speed`: the name of the first matching entry, or `None`. */
  function Selected(status: Status, t: Table): (r: Option<string>)
    ensures IsSelection(status, t, r)
  {
    match FirstMatch(status, t)
    case None => None
    case Some(i) => Some(t[i].0)
  }

  /**
   The `for ... else` loops of `preset_mode`/`speed` as written: scan the
   entries in order, break out of a pattern at the first entry the status
   contradicts, and return the first name whose pattern ran to the end.
   */
  method SelectedLoop(status: Status, t: Table) returns (r: Option<string>)
    ensures r == Selected(status, t)
  {
    var i := 0;
    while i < |t|
      invariant 0 <= i <= |t|
      invariant forall j :: 0 <= j < i ==> !Matches(status, t[j].1)
    {
      var p := t[i].1;
      var k := 0;
      var broke := false;
      while k < |p|
        invariant 0 <= k <= |p|
        invariant forall m :: 0 <= m < k ==> GetOrNone(status, p[m].0) == p[m].1
      {
        if GetOrNone(status, p[k].0) != p[k].1 {
          broke := true;
          break;
        }
        k := k + 1;
      }
      if !broke {
        return Some(t[i].0);
      }
      i := i + 1;
    }
    return None;
  }

  /**
   A status that matches the pattern at position `i`, where every earlier
   pattern disagrees with that one on a key they share, reads back as the
   name at position `i`.
   */
  lemma SelectedDistinguished(status: Status, t: Table, i: nat)
    requires i < |t| && Matches(status, t[i].1)
    requires forall j :: 0 <= j < i ==> Disagree(t[j].1, t[i].1)
    ensures Selected(status, t) == Some(t[i].0)
  {
  }

  /** Two patterns that no status can both match: they give one key different values. */
  predicate Disagree(p: Pattern, q: Pattern)
  {
    exists a, b :: 0 <= a < |p| && 0 <= b < |q| && p[a].0 == q[b].0 && p[a].1 != q[b].1
  }

  /** The status a device holds after it applied `data`: each entry overwrites its key. */
  function ApplyPattern(status: Status, data: Pattern): Status
    decreases |data|
  {
    if data == [] then status
    else
      var last := data[|data| - 1];
      ApplyPattern(status, data[..|data| - 1])[last.0 := last.1]
  }

  /** Once a pattern with distinct keys has been applied the status matches it. */
  lemma {:induction false} ApplyPatternMatches(status: Status, data: Pattern)
    requires OrderedMap.Valid(data)
    ensures Matches(ApplyPattern(status, data), data)
    decreases |data|
  {
    if data != [] {
      var init := data[..|data| - 1];
      var last := data[|data| - 1];
      assert OrderedMap.Valid(init) by {
        assert OrderedMap.Keys(init) == OrderedMap.Keys(data)[..|data| - 1];
      }
      ApplyPatternMatches(status, init);
      var s := ApplyPattern(status, data);
      forall i | 0 <= i < |data|
        ensures GetOrNone(s, data[i].0) == data[i].1
      {
        if i < |data| - 1 {
          assert OrderedMap.Keys(data)[i] != OrderedMap.Keys(data)[|data| - 1];
          assert init[i] == data[i];
        }
      }
    }
  }

  /**
   `async_set_preset_mode` / `async_set_speed`: look the name up and send its
   pattern; an unknown name or an empty pattern sends nothing.
   */
  function SetPattern(t: Table, name: string): (cmds: seq<Command>)
    ensures cmds == [] || (|cmds| == 1 && cmds[0].SetValues?)
    ensures name !in OrderedMap.Keys(t) ==> cmds == []
  {
    match OrderedMap.Get(t, name)
    case None => []
    case Some(p) => if p != [] then [SetValues(p)] else []
  }

  /** The status a device holds after it applied the commands in order. */
  function ApplyCommands(status: Status, cmds: seq<Command>): Status
    decreases |cmds|
  {
    if cmds == [] then status
    else
      var next := match cmds[0]
        case SetValue(k, v) => status[k := v]
        case SetValues(p) => ApplyPattern(status, p);
      ApplyCommands(next, cmds[1..])
  }

  /** One `set_control_value` overwrites its key and leaves every other key as it was. */
  lemma ApplySetValue(status: Status, k: string, v: Value)
    ensures ApplyCommands(status, [SetValue(k, v)]) == status[k := v]
    ensures GetOrNone(ApplyCommands(status, [SetValue(k, v)]), k) == v
  {
    assert [SetValue(k, v)][1..] == [];
  }

  /** One `set_control_value(k, v)`: afterwards the status holds `v` at `k` and is unchanged elsewhere. */
  function SetOne(k: string, v: Value): (cmds: seq<Command>)
    ensures cmds == [SetValue(k, v)]
    ensures forall status :: GetOrNone(ApplyCommands(status, cmds), k) == v
    ensures forall status, k' :: k' != k ==> GetOrNone(ApplyCommands(status, cmds), k') == GetOrNone(status, k')
  {
    var cmds := [SetValue(k, v)];
    assert forall status :: ApplyCommands(status, cmds) == status[k := v] by {
      forall status ensures ApplyCommands(status, cmds) == status[k := v] {
        ApplySetValue(status, k, v);
      }
    }
    cmds
  }

  /**
   What a set-pattern call achieves: an unknown name sends nothing, and
   once the device has applied what a known name sends, the status matches
   that name's pattern (for a pattern whose keys are distinct).
   */
  ghost predicate SendsPattern(t: Table, name: string, cmds: seq<Command>)
  {
    |cmds| <= 1
    && (name !in OrderedMap.Keys(t) ==> cmds == [])
    && (name in OrderedMap.Keys(t) && OrderedMap.Valid(OrderedMap.Get(t, name).value) ==>
          forall status :: Matches(ApplyCommands(status, cmds), OrderedMap.Get(t, name).value))
  }

  lemma SetPatternApplies(t: Table, name: string)
    ensures SendsPattern(t, name, SetPattern(t, name))
  {
    var cmds := SetPattern(t, name);
    if name in OrderedMap.Keys(t) && OrderedMap.Valid(OrderedMap.Get(t, name).value) {
      var p := OrderedMap.Get(t, name).value;
      forall status ensures Matches(ApplyCommands(status, cmds), p) {
        if p != [] {
          assert cmds[1..] == [];
          ApplyPatternMatches(status, p);
        }
      }
    }
  }

  /** The first entry named `name` is the one whose pattern is sent. */
  lemma {:induction false} SetPatternSends(t: Table, i: nat)
    requires i < |t| && t[i].1 != [] && forall j :: 0 <= j < i ==> t[j].0 != t[i].0
    ensures SetPattern(t, t[i].0) == [SetValues(t[i].1)]
    decreases i
  {
    OrderedMap.GetFirst(t, i);
  }

  /**
   Round trip of a table: when the device applies the pattern a name sends,
   the status then reads back as that name, provided each earlier pattern
   disagrees with it.
   */
  lemma SetThenSelect(status: Status, t: Table, i: nat)
    requires OrderedMap.Valid(t) && i < |t| && t[i].1 != [] && OrderedMap.Valid(t[i].1)
    requires forall j :: 0 <= j < i ==> Disagree(t[j].1, t[i].1)
    ensures SetPattern(t, t[i].0) == [SetValues(t[i].1)]
    ensures Selected(ApplyPattern(status, t[i].1), t) == Some(t[i].0)
  {
    forall j | 0 <= j < i ensures t[j].0 != t[i].0 {
      assert OrderedMap.Keys(t)[j] != OrderedMap.Keys(t)[i];
    }
    SetPatternSends(t, i);
    ApplyPatternMatches(status, t[i].1);
    SelectedDistinguished(ApplyPattern(status, t[i].1), t, i);
  }

  /** How an attribute's raw status value is presented. */
  datatype ValueMap =
    | NoMap
      /** A dict: applied only when the value is one of its keys. */
    | DictMap(table: map<Value, Value>)
      /** A callable given the value and the whole status. */
    | WithStatus(f: (Value, Status) -> Value)
      /** A callable given the value alone. */
    | ValueOnly(g: Value -> Value)

  /** One `AVAILABLE_ATTRIBUTES` entry: `(key, philips_key[, value_map])`. */
  datatype AttrSpec = AttrSpec(key: string, philipsKey: string, valueMap: ValueMap)

  /**
   The `append` helper's presentation of one value: a dict maps the values
   it has a key for and passes others through, but testing a list or dict
   value against it raises; a callable is applied.
   */
  function Present(vm: ValueMap, v: Value, status: Status): (r: Result<Value, HashError>)
    ensures r.Err? <==> vm.DictMap? && (v.Arr? || v.Obj?)
    ensures vm.NoMap? ==> r == Ok(v)
    ensures vm.DictMap? && r.Ok? ==> r.value == (if v in vm.table then vm.table[v] else v)
  {
    match vm
    case NoMap => Ok(v)
    case DictMap(table) =>
      if v.Arr? || v.Obj? then Err(Unhashable)
      else if v in table then Ok(table[v]) else Ok(v)
    case WithStatus(f) => Ok(f(v, status))
    case ValueOnly(g) => Ok(g(v))
  }

  /** The attribute at position `i` has its Philips key in the status. */
  predicate Contributes(status: Status, specs: seq<AttrSpec>, i: int)
    requires 0 <= i < |specs|
  {
    specs[i].philipsKey in status
  }

  /** The attribute at position `i` contributes, and presenting its value raises. */
  predicate Raises(status: Status, specs: seq<AttrSpec>, i: int)
    requires 0 <= i < |specs|
  {
    Contributes(status, specs, i) && Present(specs[i].valueMap, status[specs[i].philipsKey], status).Err?
  }

  /**
   `extra_state_attributes` / `device_state_attributes`: one entry per
   attribute whose Philips key is present, later entries overwriting
   earlier ones with the same key; the first entry whose presentation
   raises ends the property with that exception.
   */
  function Attributes(status: Status, specs: seq<AttrSpec>): (r: Result<OrderedMap.OMap<string, Value>, HashError>)
    ensures r.Ok? ==> OrderedMap.Valid(r.value)
    decreases |specs|
  {
    if specs == [] then Ok([])
    else match Attributes(status, specs[..|specs| - 1])
      case Err(e) => Err(e)
      case Ok(prev) =>
        var s := specs[|specs| - 1];
        if s.philipsKey in status then
          match Present(s.valueMap, status[s.philipsKey], status)
          case Err(e) => Err(e)
          case Ok(v) =>
            OrderedMap.PutValid(prev, s.key, v);
            Ok(OrderedMap.Put(prev, s.key, v))
        else Ok(prev)
  }

  /** The property raises exactly when some contributing attribute's presentation raises. */
  lemma {:induction false} AttributesRaise(status: Status, specs: seq<AttrSpec>)
    ensures Attributes(status, specs).Err? <==> exists i :: 0 <= i < |specs| && Raises(status, specs, i)
    decreases |specs|
  {
    if specs != [] {
      var init := specs[..|specs| - 1];
      var last := |specs| - 1;
      AttributesRaise(status, init);
      if Attributes(status, init).Ok? {
        assert Attributes(status, specs).Err? <==> Raises(status, specs, last);
      }
      if exists i :: 0 <= i < |init| && Raises(status, init, i) {
        var i :| 0 <= i < |init| && Raises(status, init, i);
        assert specs[i] == init[i];
        assert Raises(status, specs, i);
      }
      if exists i :: 0 <= i < |specs| && Raises(status, specs, i) {
        var i :| 0 <= i < |specs| && Raises(status, specs, i);
        if i < |init| {
          assert init[i] == specs[i];
          assert Raises(status, init, i);
        }
      }
    }
  }

  /** An attribute is emitted exactly when some entry with that key finds its Philips key in the status. */
  lemma {:induction false} AttributesKeys(status: Status, specs: seq<AttrSpec>, key: string)
    ensures Attributes(status, specs).Ok? ==>
              (key in OrderedMap.Keys(Attributes(status, specs).value) <==>
                 exists i :: 0 <= i < |specs| && specs[i].key == key && Contributes(status, specs, i))
    decreases |specs|
  {
    if specs != [] && Attributes(status, specs).Ok? {
      var init := specs[..|specs| - 1];
      AttributesKeys(status, init, key);
      if exists i :: 0 <= i < |init| && init[i].key == key && Contributes(status, init, i) {
        var i :| 0 <= i < |init| && init[i].key == key && Contributes(status, init, i);
        assert specs[i] == init[i];
      }
      if exists i :: 0 <= i < |specs| && specs[i].key == key && Contributes(status, specs, i) {
        var i :| 0 <= i < |specs| && specs[i].key == key && Contributes(status, specs, i);
        if i < |init| {
          assert init[i] == specs[i];
        }
      }
    }
  }

  /**
   The value emitted for a key is the presented value of the last entry with
   that key whose Philips key is in the status.
   */
  lemma {:induction false} AttributesLast(status: Status, specs: seq<AttrSpec>, i: nat)
    requires i < |specs| && Contributes(status, specs, i)
    requires forall j :: i < j < |specs| ==> !(specs[j].key == specs[i].key && Contributes(status, specs, j))
    ensures Attributes(status, specs).Ok? ==>
              Present(specs[i].valueMap, status[specs[i].philipsKey], status).Ok?
              && OrderedMap.Get(Attributes(status, specs).value, specs[i].key)
                 == Some(Present(specs[i].valueMap, status[specs[i].philipsKey], status).value)
    decreases |specs|
  {
    if Attributes(status, specs).Ok? {
      AttributesRaise(status, specs);
      assert !Raises(status, specs, i);
      var init := specs[..|specs| - 1];
      var s := specs[|specs| - 1];
      if i < |specs| - 1 {
        assert init[i] == specs[i];
        forall j | i < j < |init| ensures !(init[j].key == init[i].key && Contributes(status, init, j)) {
          assert init[j] == specs[j];
        }
        AttributesLast(status, init, i);
        if s.philipsKey in status {
          var v := Present(s.valueMap, status[s.philipsKey], status).value;
          OrderedMap.PutGetOther(Attributes(status, init).value, s.key, v, specs[i].key);
        }
      }
    }
  }

  /** `AttributesKeys` for every key at once. */
  lemma AttributesKeysAll(status: Status, specs: seq<AttrSpec>)
    ensures Attributes(status, specs).Ok? ==>
              forall k :: k in OrderedMap.Keys(Attributes(status, specs).value) <==>
                exists i :: 0 <= i < |specs| && specs[i].key == k && Contributes(status, specs, i)
  {
    forall k {
      AttributesKeys(status, specs, k);
    }
  }
}
