/**
 The sensor platform: plain sensors that show one status value, possibly
 converted, and filter sensors that show a filter's remaining life either
 as a percentage of its total or as hours left.
 */
module Sensor {
  import opened Values
  import OrderedMap
  import opened Rounding
  import Setup
  import Constants

  /** What evaluating a sensor property raised. */
  datatype SensorError = KeyError | TypeError | ZeroDivisionError | OverflowError

  /** The `ATTR_VALUE` converter of a `SENSOR_TYPES` entry, if it has one. */
  type Converter = Option<(Value, Status) -> Value>

  /** `async_setup_entry`, plain sensors: one per `SENSOR_TYPES` key in the status, in table order. */
  function SensorKinds(sensorTypes: seq<string>, status: Status): (r: seq<string>)
    ensures forall k :: k in r <==> k in sensorTypes && k in status
  {
    Setup.Keep(sensorTypes, k => k in status)
  }

  /** The selection keeps the table's order and creates no sensor twice. */
  lemma SensorKindsOrder(xs: seq<string>, ys: seq<string>, status: Status)
    requires forall i, j :: 0 <= i < j < |xs + ys| ==> (xs + ys)[i] != (xs + ys)[j]
    ensures SensorKinds(xs + ys, status) == SensorKinds(xs, status) + SensorKinds(ys, status)
    ensures forall i, j :: 0 <= i < j < |SensorKinds(xs + ys, status)| ==>
              SensorKinds(xs + ys, status)[i] != SensorKinds(xs + ys, status)[j]
  {
    Setup.KeepConcat(xs, ys, k => k in status);
    Setup.KeepDistinct(xs + ys, k => k in status);
  }

  /**
   The plain sensors of `SENSOR_TYPES`: at most one per table key and none
   twice, a water-level sensor exactly when the status reports `wl`, and
   all eleven, in table order, for a status that reports every key.
   */
  lemma TableSensorKinds(status: Status)
    ensures var r := SensorKinds(Constants.SensorTypes, status);
            |r| <= 11 && (forall i, j :: 0 <= i < j < |r| ==> r[i] != r[j])
            && ("wl" in r <==> "wl" in status)
            && ((forall k :: k in Constants.SensorTypes ==> k in status) ==> r == Constants.SensorTypes)
  {
    var t := Constants.SensorTypes;
    assert forall i, j :: 0 <= i < j < |t| ==> t[i] != t[j];
    Setup.KeepDistinct(t, k => k in status);
    if forall k :: k in t ==> k in status {
      Setup.KeepAll(t, k => k in status);
    }
  }

  /**
   `PhilipsSensor.state`: the status value of the sensor's key (a missing
   key raises), passed through the converter together with the status when
   the description has one.
   */
  function SensorState(convert: Converter, status: Status, kind: string): (r: Result<Value, SensorError>)
    ensures kind !in status <==> r == Err(KeyError)
    ensures kind in status && convert.None? ==> r == Ok(status[kind])
    ensures kind in status && convert.Some? ==> r == Ok(convert.value(status[kind], status))
  {
    if kind !in status then Err(KeyError)
    else match convert
      case None => Ok(status[kind])
      case Some(f) => Ok(f(status[kind], status))
  }

  /** The water-level sensor shows 0 while the device reports a "no water" error, its level otherwise. */
  lemma WaterLevelState(status: Status, kind: string)
    requires kind in status && status[kind] != Int(0)
    ensures SensorState(Some((v, s) => Constants.WaterLevel(v, s)), status, kind) == Ok(Int(0)) <==>
              GetOrNone(status, Constants.ErrorCode).Int? && GetOrNone(status, Constants.ErrorCode).i in Constants.NoWaterCodes()
  {
    Constants.WaterLevelNoWater(status[kind], status);
  }

  /** A `FILTER_TYPES` entry. */
  datatype FilterDescription = FilterDescription(prefix: string, postfix: string)

  /** `PHILIPS_FILTER_STATUS`, `PHILIPS_FILTER_TOTAL` and `PHILIPS_FILTER_TYPE`. */
  datatype Infixes = Infixes(status: string, total: string, kind: string)

  /** The status keys of one filter: `prefix + infix + postfix` for each infix. */
  datatype FilterKeys = FilterKeys(value: string, total: string, kind: string)

  function KeysOf(d: FilterDescription, inf: Infixes): (k: FilterKeys)
    ensures d.prefix <= k.value && d.prefix <= k.total && d.prefix <= k.kind
    ensures |k.value| == |d.prefix| + |inf.status| + |d.postfix|
  {
    FilterKeys(d.prefix + inf.status + d.postfix, d.prefix + inf.total + d.postfix, d.prefix + inf.kind + d.postfix)
  }

  /** Different infixes give different keys, whatever the prefix and postfix. */
  lemma KeysDistinct(d: FilterDescription, inf: Infixes)
    ensures KeysOf(d, inf).value == KeysOf(d, inf).total <==> inf.status == inf.total
    ensures KeysOf(d, inf).value == KeysOf(d, inf).kind <==> inf.status == inf.kind
    ensures KeysOf(d, inf).total == KeysOf(d, inf).kind <==> inf.total == inf.kind
  {
    var k := KeysOf(d, inf);
    SameFrame(d, inf.status, inf.total);
    SameFrame(d, inf.status, inf.kind);
    SameFrame(d, inf.total, inf.kind);
  }

  lemma SameFrame(d: FilterDescription, a: string, b: string)
    ensures d.prefix + a + d.postfix == d.prefix + b + d.postfix <==> a == b
  {
    if d.prefix + a + d.postfix == d.prefix + b + d.postfix {
      var x := d.prefix + a + d.postfix;
      assert |a| == |b|;
      assert a == x[|d.prefix|..|d.prefix| + |a|];
    }
  }

  /** `is_supported`: the filter's value key is in the status. */
  predicate IsSupported(status: Status, d: FilterDescription, inf: Infixes)
  {
    KeysOf(d, inf).value in status
  }

  /** The filter sensors `async_setup_entry` creates, in `FILTER_TYPES` order. */
  function FilterKinds(filterTypes: OrderedMap.OMap<string, FilterDescription>, inf: Infixes, status: Status): (r: seq<string>)
    ensures forall k :: k in r <==> k in OrderedMap.Keys(filterTypes) && IsSupported(status, OrderedMap.Get(filterTypes, k).value, inf)
  {
    Setup.Keep(OrderedMap.Keys(filterTypes), k => OrderedMap.Get(filterTypes, k).Some? && IsSupported(status, OrderedMap.Get(filterTypes, k).value, inf))
  }

  datatype Unit = Percentage | Hours

  /** The unit, fixed when the entity is created: a percentage when the status has the total. */
  function UnitOf(keys: FilterKeys, initial: Status): (u: Unit)
    ensures u == Percentage <==> keys.total in initial
  {
    if keys.total in initial then Percentage else Hours
  }

  /**
   `_time_remaining`: `str(round(timedelta(hours=value) / timedelta(hours=1)))`.
   An integer number of hours comes back unchanged; `timedelta` refuses
   anything that is not a number and more than 999999999 days either way.
   */
  function TimeRemaining(value: Value): (r: Result<string, SensorError>)
    ensures AsInt(value).None? <==> r == Err(TypeError)
    ensures r == Err(OverflowError) <==> AsInt(value).Some? && !(-999999999 <= AsInt(value).value / 24 <= 999999999)
    ensures r.Ok? ==> ParseDecimal(r.value) == AsInt(value)
  {
    match AsInt(value)
    case None => Err(TypeError)
    case Some(hours) =>
      if !(-999999999 <= hours / 24 <= 999999999) then Err(OverflowError)
      else
        DecimalRoundTrip(hours);
        Ok(IntToDecimal(hours))
  }

  /**
   `_percentage`: `round(100.0 * value / total)`. A value or total that is
   not a number raises `TypeError` (the value is looked at first), a zero
   total `ZeroDivisionError`.
   */
  function PercentageOf(value: Value, total: Value): (r: Result<int, SensorError>)
    ensures (AsInt(value).None? || AsInt(total).None?) <==> r == Err(TypeError)
    ensures AsInt(value).Some? && AsInt(total) == Some(0) <==> r == Err(ZeroDivisionError)
    ensures r.Ok? ==> 2 * Abs(100 * AsInt(value).value - AsInt(total).value * r.value) <= Abs(AsInt(total).value)
  {
    match AsInt(value)
    case None => Err(TypeError)
    case Some(v) =>
      match AsInt(total)
      case None => Err(TypeError)
      case Some(t) =>
        if t == 0 then Err(ZeroDivisionError)
        else if t > 0 then Ok(RoundHalfEven(100 * v, t))
        else
          NegatedRound(100 * v, t);
          Ok(RoundHalfEven(-100 * v, -t))
  }

  /** Dividing by a negative total rounds the negated fraction. */
  lemma NegatedRound(n: int, t: int)
    requires t < 0
    ensures 2 * Abs(n - t * RoundHalfEven(-n, -t)) <= Abs(t)
  {
    var r := RoundHalfEven(-n, -t);
    assert -n - (-t) * r == -(n - t * r);
  }

  /** A remaining life between none and the total reads as 0..100 percent. */
  lemma PercentageRange(v: int, t: int)
    requires 0 <= v <= t && t > 0
    ensures PercentageOf(Int(v), Int(t)).Ok?
    ensures 0 <= PercentageOf(Int(v), Int(t)).value <= 100
    ensures v == t ==> PercentageOf(Int(v), Int(t)).value == 100
  {
    var r := RoundHalfEven(100 * v, t);
    assert PercentageOf(Int(v), Int(t)) == Ok(r);
    RoundHalfEvenBetween(100 * v, t, 0, 100);
    if v == t {
      RoundHalfEvenNear(100 * t, t, 100);
    }
  }

  /** `state`: the percentage when the status has the total, the hours left otherwise. */
  function FilterState(keys: FilterKeys, status: Status): (r: Result<Value, SensorError>)
    ensures keys.value !in status ==> r == Err(KeyError)
    ensures keys.value in status && keys.total in status ==>
              (r.Ok? <==> PercentageOf(status[keys.value], status[keys.total]).Ok?)
              && (r.Ok? ==> r.value == Int(PercentageOf(status[keys.value], status[keys.total]).value))
    ensures keys.value in status && keys.total !in status ==>
              (r.Ok? <==> TimeRemaining(status[keys.value]).Ok?)
              && (r.Ok? ==> r.value == Str(TimeRemaining(status[keys.value]).value))
  {
    if keys.value !in status then Err(KeyError)
    else if keys.total in status then
      match PercentageOf(status[keys.value], status[keys.total])
      case Err(e) => Err(e)
      case Ok(p) => Ok(Int(p))
    else
      match TimeRemaining(status[keys.value])
      case Err(e) => Err(e)
      case Ok(s) => Ok(Str(s))
  }

  /** The keys `ATTR_TOTAL` and `ATTR_TIME_REMAINING` of the attributes. */
  datatype AttrNames = AttrNames(total: string, timeRemaining: string)

  /**
   The entity's `_attrs` after an `extra_state_attributes` call, and what
   the call raised. The dict is updated in place, so entries written before
   an exception stay.
   */
  datatype AttrsOutcome = AttrsOutcome(attrs: OrderedMap.OMap<string, Value>, raised: Option<SensorError>)

  /**
   `extra_state_attributes`: set `type` when the type key is present; when
   the total is present, set the total and then the time remaining. Nothing
   is ever removed.
   */
  function FilterAttributes(attrs: OrderedMap.OMap<string, Value>, keys: FilterKeys, names: AttrNames, status: Status): (r: AttrsOutcome)
    ensures forall k :: k in OrderedMap.Keys(attrs) ==> k in OrderedMap.Keys(r.attrs)
    ensures keys.kind in status && names.total != "type" && (keys.total !in status || names.timeRemaining != "type") ==>
              OrderedMap.Get(r.attrs, "type") == Some(status[keys.kind])
    ensures keys.total in status && names.timeRemaining != names.total ==>
              OrderedMap.Get(r.attrs, names.total) == Some(status[keys.total])
    ensures r.raised.Some? <==> keys.total in status && (keys.value !in status || TimeRemaining(status[keys.value]).Err?)
    ensures keys.total in status && keys.value !in status ==> r.raised == Some(KeyError)
    ensures r.raised.None? && keys.total in status ==>
              keys.value in status && OrderedMap.Get(r.attrs, names.timeRemaining) == Some(Str(TimeRemaining(status[keys.value]).value))
  {
    var a := if keys.kind in status then OrderedMap.Put(attrs, "type", status[keys.kind]) else attrs;
    if keys.total !in status then AttrsOutcome(a, None)
    else
      var b := OrderedMap.Put(a, names.total, status[keys.total]);
      PutKeeps(a, names.total, status[keys.total], "type");
      if keys.value !in status then AttrsOutcome(b, Some(KeyError))
      else match TimeRemaining(status[keys.value])
        case Err(e) => AttrsOutcome(b, Some(e))
        case Ok(s) =>
          PutKeeps(b, names.timeRemaining, Str(s), names.total);
          PutKeeps(b, names.timeRemaining, Str(s), "type");
          AttrsOutcome(OrderedMap.Put(b, names.timeRemaining, Str(s)), None)
  }

  /** Writing one key leaves what every other key reads. */
  lemma PutKeeps(m: OrderedMap.OMap<string, Value>, k: string, v: Value, other: string)
    ensures other != k ==> OrderedMap.Get(OrderedMap.Put(m, k, v), other) == OrderedMap.Get(m, other)
  {
    if other != k {
      OrderedMap.PutGetOther(m, k, v, other);
    }
  }

  /**
   The unique id `{model}-{DeviceId}-{kind}` of a filter sensor, the kind not
   lower-cased, computed after the `PhilipsEntity` constructor: a missing
   `DeviceId` raises its `KeyError`.
   */
  function FilterUniqueId(model: string, status: Status, keys: EntityKeys, kind: string, containerStr: Value -> string)
    : (r: Result<string, IdError>)
    ensures "DeviceId" !in status ==> r == Err(MissingKey("DeviceId"))
    ensures r != Err(PlatformNotReady)
    ensures r.Ok? <==> EntityInit(status, keys).Ok?
    ensures r.Ok? ==> r.value == model + "-" + PyStr(status["DeviceId"], containerStr) + "-" + kind
  {
    EntityUniqueId(model, status, keys, Some(kind), containerStr)
  }

  /**
   The unique id `{model}-{DeviceId}-{kind.lower()}` of a plain sensor,
   computed after the `PhilipsEntity` constructor: a missing `DeviceId`
   raises its `KeyError`.
   */
  function SensorUniqueId(model: string, status: Status, keys: EntityKeys, kind: string, containerStr: Value -> string)
    : (r: Result<string, IdError>)
    ensures "DeviceId" !in status ==> r == Err(MissingKey("DeviceId"))
    ensures r != Err(PlatformNotReady)
    ensures r.Ok? <==> EntityInit(status, keys).Ok?
    ensures r.Ok? ==> r.value == model + "-" + PyStr(status["DeviceId"], containerStr) + "-" + AsciiLower(kind)
  {
    EntityUniqueId(model, status, keys, Some(AsciiLower(kind)), containerStr)
  }
}
