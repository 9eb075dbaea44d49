/**
 The select platform: a status key whose raw values are shown as named
 options, each option carrying an icon.
 */
module Select {
  import opened Values
  import OrderedMap
  import opened Patterns

  /** A `SELECT_TYPES` entry's `OPTIONS`: raw status value to `(option name, icon)`, in dict order. */
  type Options = OrderedMap.OMap<Value, (string, string)>

  /**
   What `__init__` builds from the options: the list of option names, the
   `_icons` dict keyed by the `(name, icon)` tuple, and the `_options` dict
   from raw value to name.
   */
  datatype Tables = Tables(options: seq<string>, icons: OrderedMap.OMap<Value, string>, names: OrderedMap.OMap<Value, string>)

  /** The tuple key `(name, icon)` of `_icons`. */
  function TupleKey(name: string, icon: string): Value
  {
    Arr([Str(name), Str(icon)])
  }

  function Build(opts: Options): (t: Tables)
    ensures |t.options| == |opts| && forall i :: 0 <= i < |opts| ==> t.options[i] == opts[i].1.0
    ensures forall k :: k in OrderedMap.Keys(t.icons) ==> k.Arr?
  {
    Tables(seq(|opts|, i requires 0 <= i < |opts| => opts[i].1.0), TupleIcons(opts), OptionsDict(opts))
  }

  /** `self._icons[option_tuple] = icon` for every option in turn. */
  function TupleIcons(opts: Options): (m: OrderedMap.OMap<Value, string>)
    ensures forall k :: k in OrderedMap.Keys(m) ==> k.Arr?
    decreases |opts|
  {
    if opts == [] then []
    else
      var option := opts[|opts| - 1].1;
      OrderedMap.Put(TupleIcons(opts[..|opts| - 1]), TupleKey(option.0, option.1), option.1)
  }

  /** `self._options[key] = option_name` for every option in turn. */
  function OptionsDict(opts: Options): OrderedMap.OMap<Value, string>
    decreases |opts|
  {
    if opts == [] then []
    else OrderedMap.Put(OptionsDict(opts[..|opts| - 1]), opts[|opts| - 1].0, opts[|opts| - 1].1.0)
  }

  /** `m` pairs each raw value with its option name, entry for entry. */
  predicate IsNameTable(m: OrderedMap.OMap<Value, string>, opts: Options)
  {
    |m| == |opts| && forall i :: 0 <= i < |opts| ==> m[i] == (opts[i].0, opts[i].1.0)
  }

  /** `_options` maps each raw value to its option name, in the options' order. */
  lemma {:induction false} BuildNames(opts: Options)
    requires OrderedMap.Valid(opts)
    ensures IsNameTable(OptionsDict(opts), opts)
    decreases |opts|
  {
    if opts != [] {
      var init := opts[..|opts| - 1];
      var last := opts[|opts| - 1];
      assert OrderedMap.Keys(init) == OrderedMap.Keys(opts)[..|opts| - 1];
      BuildNames(init);
      var m := OptionsDict(init);
      assert last.0 !in OrderedMap.Keys(m) by {
        forall i | 0 <= i < |m| ensures m[i].0 != last.0 {
          assert m[i].0 == OrderedMap.Keys(opts)[i];
        }
      }
      OrderedMap.PutFresh(m, last.0, last.1.0);
      var r := m + [(last.0, last.1.0)];
      forall i | 0 <= i < |opts| ensures r[i] == (opts[i].0, opts[i].1.0) {
        if i < |m| {
          assert init[i] == opts[i];
        }
      }
    }
  }

  /** `current_option`: the name of the raw status value, `None` when it has none. */
  function CurrentOption(t: Tables, status: Status, kind: string): (r: Result<Option<string>, HashError>)
    ensures r.Err? <==> GetOrNone(status, kind).Arr? || GetOrNone(status, kind).Obj?
    ensures r.Ok? ==> (r.value.None? <==> GetOrNone(status, kind) !in OrderedMap.Keys(t.names))
  {
    var v := GetOrNone(status, kind);
    if v.Arr? || v.Obj? then Err(Unhashable)
    else Ok(OrderedMap.Get(t.names, v))
  }

  /** The position of the first entry of `_options` whose name is `option`. */
  function FirstNamed(names: OrderedMap.OMap<Value, string>, option: string): (r: Option<nat>)
    ensures r.Some? ==> r.value < |names| && names[r.value].1 == option
                        && forall j :: 0 <= j < r.value ==> names[j].1 != option
    ensures r.None? <==> forall j :: 0 <= j < |names| ==> names[j].1 != option
    decreases |names|
  {
    if names == [] then None
    else if names[0].1 == option then Some(0)
    else match FirstNamed(names[1..], option)
      case None => None
      case Some(p) => Some(p + 1)
  }

  /**
   `async_select_option`: send the first raw value named `option`; for an
   unknown option the `StopIteration` is caught and nothing is sent.
   */
  function SelectOption(t: Tables, kind: string, option: string): (cmds: seq<Command>)
    ensures cmds == [] <==> forall j :: 0 <= j < |t.names| ==> t.names[j].1 != option
    ensures cmds != [] ==> exists j :: 0 <= j < |t.names| && t.names[j].1 == option
                                       && cmds == [SetValue(kind, t.names[j].0)]
  {
    match FirstNamed(t.names, option)
    case None => []
    case Some(j) => [SetValue(kind, t.names[j].0)]
  }

  /** No two options share a name. */
  predicate DistinctNames(opts: Options)
  {
    forall i, j :: 0 <= i < j < |opts| ==> opts[i].1.0 != opts[j].1.0
  }

  /**
   With distinct option names, selecting the current option sends the raw
   value the status already holds.
   */
  lemma SelectCurrentOption(opts: Options, status: Status, kind: string)
    requires OrderedMap.Valid(opts) && DistinctNames(opts)
    requires CurrentOption(Build(opts), status, kind).Ok? && CurrentOption(Build(opts), status, kind).value.Some?
    ensures SelectOption(Build(opts), kind, CurrentOption(Build(opts), status, kind).value.value)
            == [SetValue(kind, GetOrNone(status, kind))]
  {
    var t := Build(opts);
    var v := GetOrNone(status, kind);
    var n := CurrentOption(t, status, kind).value.value;
    assert OrderedMap.Get(t.names, v) == Some(n);
    BuildNames(opts);
    var names := OptionsDict(opts);
    assert t.names == names;
    OrderedMap.GetFound(names, v);
    var i :| 0 <= i < |names| && names[i] == (v, n);
    NamedOnce(names, opts, i);
  }

  /** With distinct names the first entry named like entry `i` is entry `i`. */
  lemma NamedOnce(names: OrderedMap.OMap<Value, string>, opts: Options, i: nat)
    requires IsNameTable(names, opts) && DistinctNames(opts) && i < |opts|
    ensures FirstNamed(names, opts[i].1.0) == Some(i)
  {
    var j := FirstNamed(names, opts[i].1.0).value;
    assert names[j].1 == opts[j].1.0;
  }

  /**
   `icon` as written: `_icons.get(current_option)`. The keys of `_icons` are
   tuples while `current_option` is a name or `None`, so no lookup ever
   finds an icon.
   */
  function IconAsWritten(t: Tables, status: Status, kind: string): (r: Result<Option<string>, HashError>)
    ensures r.Err? <==> GetOrNone(status, kind).Arr? || GetOrNone(status, kind).Obj?
    ensures (forall k :: k in OrderedMap.Keys(t.icons) ==> k.Arr?) ==> r.Ok? ==> r == Ok(None)
  {
    match CurrentOption(t, status, kind)
    case Err(e) => Err(e)
    case Ok(current) =>
      var key := if current.Some? then Str(current.value) else Null;
      Ok(OrderedMap.Get(t.icons, key))
  }

  /** The icon table keyed by option name, as the lookup in `icon` expects. */
  function IconsByName(opts: Options): OrderedMap.OMap<string, string>
    decreases |opts|
  {
    if opts == [] then []
    else
      var option := opts[|opts| - 1].1;
      OrderedMap.Put(IconsByName(opts[..|opts| - 1]), option.0, option.1)
  }

  /** `m` pairs each option name with its icon, entry for entry. */
  predicate IsIconTable(m: OrderedMap.OMap<string, string>, opts: Options)
  {
    |m| == |opts| && forall i :: 0 <= i < |opts| ==> m[i] == (opts[i].1.0, opts[i].1.1)
  }

  /**
   `icon`: the icon of the current option, `None` when there is no current
   option. With distinct option names there is an icon exactly when the
   status holds one of the raw values, and it is the icon listed with it.
   */
  function Icon(opts: Options, status: Status, kind: string): (r: Result<Option<string>, HashError>)
    ensures r.Err? <==> GetOrNone(status, kind).Arr? || GetOrNone(status, kind).Obj?
    ensures OrderedMap.Valid(opts) && DistinctNames(opts) && r.Ok? ==>
              (r.value.Some? <==> GetOrNone(status, kind) in OrderedMap.Keys(opts))
              && (r.value.Some? ==> exists i :: 0 <= i < |opts| && opts[i].0 == GetOrNone(status, kind)
                                               && r.value.value == opts[i].1.1)
  {
    match CurrentOption(Build(opts), status, kind)
    case Err(e) => Err(e)
    case Ok(current) =>
      IconLookup(opts, status, kind);
      Ok(if current.Some? then OrderedMap.Get(IconsByName(opts), current.value) else None)
  }

  /** The current option is the name of the raw value the status holds, and its icon is the one listed with it. */
  lemma IconLookup(opts: Options, status: Status, kind: string)
    ensures var c := CurrentOption(Build(opts), status, kind);
            OrderedMap.Valid(opts) && DistinctNames(opts) && c.Ok? ==>
              (c.value.Some? <==> GetOrNone(status, kind) in OrderedMap.Keys(opts))
    ensures var c := CurrentOption(Build(opts), status, kind);
            OrderedMap.Valid(opts) && DistinctNames(opts) && c.Ok? && c.value.Some? ==>
              exists i :: 0 <= i < |opts| && opts[i].0 == GetOrNone(status, kind)
                          && OrderedMap.Get(IconsByName(opts), c.value.value) == Some(opts[i].1.1)
  {
    var v := GetOrNone(status, kind);
    if OrderedMap.Valid(opts) && DistinctNames(opts) && CurrentOption(Build(opts), status, kind).Ok? {
      if v in OrderedMap.Keys(opts) {
        IconAt(opts, status, kind);
      } else {
        RawValueUnnamed(opts, v);
      }
    }
  }

  lemma IconAt(opts: Options, status: Status, kind: string)
    requires OrderedMap.Valid(opts) && DistinctNames(opts)
    requires GetOrNone(status, kind) in OrderedMap.Keys(opts) && CurrentOption(Build(opts), status, kind).Ok?
    ensures exists i :: 0 <= i < |opts| && opts[i].0 == GetOrNone(status, kind)
                        && CurrentOption(Build(opts), status, kind) == Ok(Some(opts[i].1.0))
                        && OrderedMap.Get(IconsByName(opts), opts[i].1.0) == Some(opts[i].1.1)
  {
    var i :| 0 <= i < |opts| && OrderedMap.Keys(opts)[i] == GetOrNone(status, kind);
    CurrentOptionAt(opts, status, kind, i);
    IconOfName(opts, i);
  }

  /** A value that is not a raw key of the options has no name in `_options`. */
  lemma RawValueUnnamed(opts: Options, v: Value)
    requires OrderedMap.Valid(opts) && v !in OrderedMap.Keys(opts)
    ensures v !in OrderedMap.Keys(Build(opts).names)
  {
    var names := OptionsDict(opts);
    BuildNames(opts);
    assert Build(opts).names == names;
    forall j | 0 <= j < |names| ensures names[j].0 != v {
      assert names[j].0 == opts[j].0 == OrderedMap.Keys(opts)[j];
    }
  }

  /** With distinct option names, the icon table pairs each name with its own icon. */
  lemma {:induction false} IconsByNameTable(opts: Options)
    requires DistinctNames(opts)
    ensures IsIconTable(IconsByName(opts), opts)
    decreases |opts|
  {
    if opts != [] {
      var init := opts[..|opts| - 1];
      var last := opts[|opts| - 1];
      IconsByNameTable(init);
      var m := IconsByName(init);
      assert last.1.0 !in OrderedMap.Keys(m) by {
        forall i | 0 <= i < |m| ensures m[i].0 != last.1.0 {
          assert m[i].0 == opts[i].1.0;
        }
      }
      OrderedMap.PutFresh(m, last.1.0, last.1.1);
      var r := m + [(last.1.0, last.1.1)];
      forall i | 0 <= i < |opts| ensures r[i] == (opts[i].1.0, opts[i].1.1) {
        if i < |m| {
          assert init[i] == opts[i];
        }
      }
    }
  }

  /**
   With distinct option names, the icon shown is the icon listed with the
   raw value the status holds.
   */
  lemma IconShowsOption(opts: Options, status: Status, kind: string, i: nat)
    requires OrderedMap.Valid(opts) && DistinctNames(opts)
    requires i < |opts| && GetOrNone(status, kind) == opts[i].0 && !opts[i].0.Arr? && !opts[i].0.Obj?
    ensures Icon(opts, status, kind) == Ok(Some(opts[i].1.1))
  {
    CurrentOptionAt(opts, status, kind, i);
    IconOfName(opts, i);
  }

  /** A status holding the raw value of entry `i` shows that entry's name. */
  lemma CurrentOptionAt(opts: Options, status: Status, kind: string, i: nat)
    requires OrderedMap.Valid(opts)
    requires i < |opts| && GetOrNone(status, kind) == opts[i].0 && !opts[i].0.Arr? && !opts[i].0.Obj?
    ensures CurrentOption(Build(opts), status, kind) == Ok(Some(opts[i].1.0))
  {
    var names := OptionsDict(opts);
    BuildNames(opts);
    assert Build(opts).names == names;
    forall j | 0 <= j < i ensures names[j].0 != names[i].0 {
      assert OrderedMap.Keys(opts)[j] != OrderedMap.Keys(opts)[i];
    }
    OrderedMap.GetFirst(names, i);
  }

  lemma IconOfName(opts: Options, i: nat)
    requires DistinctNames(opts) && i < |opts|
    ensures OrderedMap.Get(IconsByName(opts), opts[i].1.0) == Some(opts[i].1.1)
  {
    var icons := IconsByName(opts);
    IconsByNameTable(opts);
    OrderedMap.GetFirst(icons, i);
  }

  /**
   The unique id `{model}-{DeviceId}-{kind.lower()}`, computed after the
   `PhilipsEntity` constructor: a missing `DeviceId` raises its `KeyError`.
   */
  function UniqueId(model: string, status: Status, keys: EntityKeys, kind: string, containerStr: Value -> string)
    : (r: Result<string, IdError>)
    ensures "DeviceId" !in status ==> r == Err(MissingKey("DeviceId"))
    ensures r != Err(PlatformNotReady)
    ensures r.Ok? <==> EntityInit(status, keys).Ok?
    ensures r.Ok? ==> r.value == model + "-" + PyStr(status["DeviceId"], containerStr) + "-" + AsciiLower(kind)
  {
    EntityUniqueId(model, status, keys, Some(AsciiLower(kind)), containerStr)
  }
}
