/**
 The fan of the older `philips_airpurifier` integration: a fan entity that
 observes the device itself and exposes named speeds, `SPEED_OFF` among
 them, instead of presets.
 */
module LegacyFan {
  import opened Values
  import OrderedMap
  import opened Patterns
  import Constants

  /** What the entity holds between status updates; `isOn` is `None` before the first one. */
  datatype State = State(available: bool, isOn: Option<bool>, status: Status)

  function Init(): (st: State)
    ensures !st.available && st.isOn.None? && st.status == map[]
  {
    State(false, None, map[])
  }

  /** `_update_status`: the entity becomes available and takes over the new status wholesale. */
  function UpdateStatus(st: State, status: Status): (r: State)
    ensures r.available && r.status == status
    ensures r.isOn == Some(GetOrNone(status, Constants.Power) == Str("1"))
  {
    State(true, Some(GetOrNone(status, Constants.Power) == Str("1")), status)
  }

  /** The entity after a run of status updates, oldest first. */
  function Observe(st: State, run: seq<Status>): State
    decreases |run|
  {
    if run == [] then st else Observe(UpdateStatus(st, run[0]), run[1..])
  }

  /**
   After a non-empty run of updates the entity holds the last status and
   nothing else: where it started and the earlier statuses leave no trace.
   */
  lemma {:induction false} ObserveLast(st: State, run: seq<Status>)
    requires run != []
    ensures Observe(st, run) == UpdateStatus(Init(), run[|run| - 1])
    ensures Observe(st, run).status == run[|run| - 1]
    decreases |run|
  {
    if |run| > 1 {
      ObserveLast(UpdateStatus(st, run[0]), run[1..]);
      assert run[1..][|run| - 2] == run[|run| - 1];
    }
  }

  /** `speed`: the first speed whose pattern the held status matches. */
  function Speed(speeds: Table, st: State): (r: Option<string>)
    ensures IsSelection(st.status, speeds, r)
  {
    Selected(st.status, speeds)
  }

  /** `async_set_speed`: send the speed's pattern, which the device then matches. */
  function SetSpeed(speeds: Table, speed: string): (cmds: seq<Command>)
    ensures SendsPattern(speeds, speed, cmds)
  {
    SetPatternApplies(speeds, speed);
    SetPattern(speeds, speed)
  }

  /** `async_turn_off`: the fan reads as off at the next status update after the device applied it. */
  function TurnOff(): (cmds: seq<Command>)
    ensures forall st, status :: UpdateStatus(st, ApplyCommands(status, cmds)).isOn == Some(false)
  {
    SetOne(Constants.Power, Str("0"))
  }

  /** `async_turn_on`: no speed powers on, `SPEED_OFF` turns off, any other speed is set through its pattern. */
  function TurnOn(speeds: Table, speed: Option<string>, speedOff: string): (cmds: seq<Command>)
    ensures speed.None? ==> forall st, status :: UpdateStatus(st, ApplyCommands(status, cmds)).isOn == Some(true)
    ensures speed == Some(speedOff) ==> cmds == TurnOff()
    ensures speed.Some? && speed.value != speedOff ==> cmds == SetSpeed(speeds, speed.value)
  {
    match speed
    case None => SetOne(Constants.Power, Str("1"))
    case Some(s) => if s == speedOff then TurnOff() else SetSpeed(speeds, s)
  }

  /**
   Every model class's merged speed table starts with `SPEED_OFF` mapped to
   `{pwr: "0"}`: the tables visited before `PhilipsGenericCoAPFan`'s are
   empty, its table starts with that entry, and no later table redefines it.
   */
  lemma SpeedOffFirst(tables: seq<Table>, g: nat, speedOff: string, off: Pattern)
    requires g < |tables| && tables[g] != [] && tables[g][0] == (speedOff, off)
    requires forall j :: 0 <= j < g ==> tables[j] == []
    requires forall j :: g < j < |tables| ==> speedOff !in OrderedMap.Keys(tables[j])
    requires OrderedMap.Valid(tables[g])
    ensures |OrderedMap.MergeAll(tables)| > 0 && OrderedMap.MergeAll(tables)[0].0 == speedOff
    ensures OrderedMap.Get(OrderedMap.MergeAll(tables), speedOff) == Some(off)
  {
    MergedHead(tables, g);
    MergedOff(tables, g, speedOff, off);
  }

  lemma MergedHead(tables: seq<Table>, g: nat)
    requires g < |tables| && tables[g] != []
    requires forall j :: 0 <= j < g ==> tables[j] == []
    ensures |OrderedMap.MergeAll(tables)| > 0 && OrderedMap.MergeAll(tables)[0].0 == tables[g][0].0
  {
    OrderedMap.MergeAllKeys(tables);
    FlatKeysHead(tables, g);
    DedupHead(OrderedMap.FlatKeys(tables));
    assert OrderedMap.Keys(OrderedMap.MergeAll(tables))[0] == OrderedMap.MergeAll(tables)[0].0;
  }

  lemma MergedOff(tables: seq<Table>, g: nat, speedOff: string, off: Pattern)
    requires g < |tables| && tables[g] != [] && tables[g][0] == (speedOff, off)
    requires forall j :: g < j < |tables| ==> speedOff !in OrderedMap.Keys(tables[j])
    requires OrderedMap.Valid(tables[g])
    ensures OrderedMap.Get(OrderedMap.MergeAll(tables), speedOff) == Some(off)
  {
    OrderedMap.MergeAllGet(tables, speedOff);
    assert OrderedMap.Keys(tables[g])[0] == speedOff;
    LastDefinitionAt(tables, g, speedOff);
    forall j | 0 < j < |tables[g]| ensures tables[g][j].0 != speedOff {
      assert OrderedMap.Keys(tables[g])[0] != OrderedMap.Keys(tables[g])[j];
    }
    GetLastFirst(tables[g], speedOff, off);
  }

  lemma {:induction false} FlatKeysHead(tables: seq<Table>, g: nat)
    requires g < |tables| && tables[g] != []
    requires forall j :: 0 <= j < g ==> tables[j] == []
    ensures OrderedMap.FlatKeys(tables) != [] && OrderedMap.FlatKeys(tables)[0] == tables[g][0].0
    decreases |tables|
  {
    var init := tables[..|tables| - 1];
    if g < |tables| - 1 {
      FlatKeysHead(init, g);
    } else {
      FlatKeysEmpty(init);
    }
  }

  lemma {:induction false} FlatKeysEmpty(tables: seq<Table>)
    requires forall j :: 0 <= j < |tables| ==> tables[j] == []
    ensures OrderedMap.FlatKeys(tables) == []
    decreases |tables|
  {
    if tables != [] {
      FlatKeysEmpty(tables[..|tables| - 1]);
    }
  }

  /** Removing repeats keeps the first element first. */
  lemma {:induction false} DedupHead<K>(xs: seq<K>)
    requires xs != []
    ensures OrderedMap.Dedup(xs) != [] && OrderedMap.Dedup(xs)[0] == xs[0]
    decreases |xs|
  {
    if |xs| > 1 {
      DedupHead(xs[..|xs| - 1]);
    } else {
      assert xs[..0] == [];
      assert OrderedMap.AppendNew([], xs[..0]) == [];
    }
  }

  lemma {:induction false} LastDefinitionAt(tables: seq<Table>, g: nat, k: string)
    requires g < |tables| && k in OrderedMap.Keys(tables[g])
    requires forall j :: g < j < |tables| ==> k !in OrderedMap.Keys(tables[j])
    ensures OrderedMap.LastDefinition(tables, k) == OrderedMap.GetLast(tables[g], k)
    decreases |tables|
  {
    if g < |tables| - 1 {
      LastDefinitionAt(tables[..|tables| - 1], g, k);
    }
  }

  /** In a table whose first key is `k` and not repeated, the last definition of `k` is the first. */
  lemma {:induction false} GetLastFirst(t: Table, k: string, v: Pattern)
    requires t != [] && t[0] == (k, v)
    requires forall j :: 0 < j < |t| ==> t[j].0 != k
    ensures OrderedMap.GetLast(t, k) == Some(v)
    decreases |t|
  {
    if |t| > 1 {
      GetLastFirst(t[..|t| - 1], k, v);
    }
  }

  /**
   `device_state_attributes`: raises exactly when a contributing attribute's value cannot be
   tested against its dict, and otherwise has exactly the keys of the
   attributes whose Philips key the status holds.
   */
  function DeviceStateAttributes(attributes: seq<AttrSpec>, st: State): (r: Result<OrderedMap.OMap<string, Value>, HashError>)
    ensures r.Err? <==> exists i :: 0 <= i < |attributes| && Raises(st.status, attributes, i)
    ensures r.Ok? ==> forall k :: k in OrderedMap.Keys(r.value) <==>
              exists i :: 0 <= i < |attributes| && attributes[i].key == k && Contributes(st.status, attributes, i)
  {
    AttributesRaise(st.status, attributes);
    AttributesKeysAll(st.status, attributes);
    Attributes(st.status, attributes)
  }
}
