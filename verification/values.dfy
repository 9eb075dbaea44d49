/**
 Shared vocabulary of the model: optional and fallible results, bytes, and
 the JSON values a Philips air purifier reports in its status.
 */
module Values {

  /** An unsigned 8-bit value. */
  type byte = b: int | 0 <= b < 256

  datatype Option<+T> = None | Some(value: T)

  /** A computation that either produced a value or raised `error`. */
  datatype Result<+T, +E> = Ok(value: T) | Err(error: E)

  /**
   A decoded JSON value. Objects are keyed maps because every lookup the
   integration performs on a status is by key; floats are not modelled.
   */
  datatype Value =
    | Null
    | Bool(b: bool)
    | Int(i: int)
    | Str(s: string)
    | Arr(items: seq<Value>)
    | Obj(fields: map<string, Value>)

  /** The `state.reported` object of a device, as a Python dict. */
  type Status = map<string, Value>

  /** Python's `dict.get(key)`: the stored value, or `None` when absent. */
  function GetOrNone(status: Status, key: string): Value
  {
    if key in status then status[key] else Null
  }

  /** Python truthiness of a JSON value (`if value:`). */
  predicate Truthy(v: Value)
  {
    match v
    case Null => false
    case Bool(b) => b
    case Int(i) => i != 0
    case Str(s) => s != ""
    case Arr(items) => items != []
    case Obj(fields) => fields != map[]
  }

  /** Python truthiness of an optional string argument. */
  predicate TruthyString(s: Option<string>)
  {
    s.Some? && s.value != ""
  }

  /** Python truthiness of an optional integer argument. */
  predicate TruthyInt(n: Option<int>)
  {
    n.Some? && n.value != 0
  }

  /** Python's view of a status value as an integer: `bool` is a subclass of `int`. */
  function AsInt(v: Value): Option<int>
  {
    match v
    case Int(i) => Some(i)
    case Bool(b) => Some(if b then 1 else 0)
    case _ => None
  }

  /** The decimal digits of a natural number, most significant first. */
  function NatToDecimal(n: nat): (s: string)
    decreases n
  {
    if n < 10 then [DecimalDigit(n)] else NatToDecimal(n / 10) + [DecimalDigit(n % 10)]
  }

  function DecimalDigit(d: nat): char
    requires d < 10
  {
    "0123456789"[d]
  }

  /** Python's `str(n)` for an integer. */
  function IntToDecimal(n: int): string
  {
    if n < 0 then "-" + NatToDecimal(-n) else NatToDecimal(n)
  }

  predicate IsAsciiDigit(c: char)
  {
    '0' <= c <= '9'
  }

  predicate AllDigits(s: string)
  {
    forall i :: 0 <= i < |s| ==> IsAsciiDigit(s[i])
  }

  /** Value of a non-empty string of ASCII decimal digits. */
  function DecimalValue(s: string): nat
    requires AllDigits(s)
    decreases |s|
  {
    if s == [] then 0
    else
      assert IsAsciiDigit(s[|s| - 1]);
      DecimalValue(s[..|s| - 1]) * 10 + (s[|s| - 1] as int - '0' as int)
  }

  /** Python's `int(s)` restricted to an optional minus sign and ASCII digits. */
  function ParseDecimal(s: string): Option<int>
  {
    if |s| > 0 && s[0] == '-' then
      var t := s[1..];
      if |t| > 0 && AllDigits(t) then Some(0 - DecimalValue(t) as int) else None
    else if |s| > 0 && AllDigits(s) then Some(DecimalValue(s))
    else None
  }

  lemma {:induction false} NatToDecimalDigits(n: nat)
    ensures |NatToDecimal(n)| > 0
    ensures AllDigits(NatToDecimal(n))
    ensures DecimalValue(NatToDecimal(n)) == n
    decreases n
  {
    if n < 10 {
      DigitValue(n);
    } else {
      NatToDecimalDigits(n / 10);
      DigitValue(n % 10);
      var p := NatToDecimal(n / 10);
      var s := NatToDecimal(n);
      assert s == p + [DecimalDigit(n % 10)];
      assert s[..|s| - 1] == p;
      assert DecimalValue(s) == DecimalValue(p) * 10 + n % 10;
    }
  }

  lemma DigitValue(d: nat)
    requires d < 10
    ensures IsAsciiDigit(DecimalDigit(d)) && DecimalDigit(d) as int - '0' as int == d
  {
  }

  /** `int(str(n)) == n`: the decimal rendering of an integer loses nothing. */
  lemma DecimalRoundTrip(n: int)
    ensures ParseDecimal(IntToDecimal(n)) == Some(n)
  {
    if n < 0 {
      NegativeRoundTrip(n);
    } else {
      NatToDecimalDigits(n);
      var d := NatToDecimal(n);
      assert IsAsciiDigit(d[0]);
      assert IntToDecimal(n) == d;
    }
  }

  lemma NegativeRoundTrip(n: int)
    requires n < 0
    ensures ParseDecimal(IntToDecimal(n)) == Some(n)
  {
    NatToDecimalDigits(-n);
    ParseNegative(NatToDecimal(-n));
  }

  lemma ParseNegative(d: string)
    requires |d| > 0 && AllDigits(d)
    ensures ParseDecimal("-" + d) == Some(0 - DecimalValue(d))
  {
    assert ("-" + d)[1..] == d;
  }

  /** Looking a list or dict value up in a dict raises `TypeError`: they are unhashable. */
  datatype HashError = Unhashable

  /** Python's `str(v)` for the scalar values a device id can take. */
  function ScalarToString(v: Value): Option<string>
  {
    match v
    case Null => Some("None")
    case Bool(b) => Some(if b then "True" else "False")
    case Int(i) => Some(IntToDecimal(i))
    case Str(s) => Some(s)
    case Arr(_) => None
    case Obj(_) => None
  }

  /** ASCII-only `str.lower()`. */
  function AsciiLower(s: string): (r: string)
    ensures |r| == |s|
    ensures forall i :: 0 <= i < |s| ==> r[i] == (if 'A' <= s[i] <= 'Z' then (s[i] as int + 32) as char else s[i])
  {
    seq(|s|, i requires 0 <= i < |s| => if 'A' <= s[i] <= 'Z' then (s[i] as int + 32) as char else s[i])
  }

  /**
   `str(v)`, as an f-string renders a status value: scalars as Python writes
   them, and lists and dicts through `containerStr`, which stands for
   Python's bracketed rendering of the `repr` of their items.
   */
  function PyStr(v: Value, containerStr: Value -> string): (r: string)
    ensures v.Str? ==> r == v.s
    ensures v.Int? ==> r == IntToDecimal(v.i)
    ensures (v.Arr? || v.Obj?) ==> r == containerStr(v)
    ensures v.Null? ==> r == "None"
    ensures v.Bool? ==> r == (if v.b then "True" else "False")
  {
    match ScalarToString(v)
    case Some(text) => text
    case None => containerStr(v)
  }

  /**
   Why an entity could not be built or could not compute its unique id:
   the `PlatformNotReady` of the id's `try`, the `KeyError` of a missing
   status key, or the `IndexError` of a status with no truthy value among
   the keys read for a name or model id.
   */
  datatype IdError = PlatformNotReady | MissingKey(key: string) | NoTruthyValue

  function SuffixPart(suffix: Option<string>): string
  {
    if suffix.Some? then "-" + suffix.value else ""
  }

  /**
   A unique id of the form `{model}-{DeviceId}` or
   `{model}-{DeviceId}-{suffix}`: whatever the `DeviceId` value is, the
   f-string renders it; only a missing one raises (`PlatformNotReady`).
   */
  function DeviceUniqueId(model: string, status: Status, suffix: Option<string>, containerStr: Value -> string)
    : (r: Result<string, IdError>)
    ensures r.Err? <==> "DeviceId" !in status
    ensures r.Ok? ==> r.value == model + "-" + PyStr(status["DeviceId"], containerStr) + SuffixPart(suffix)
    ensures "DeviceId" in status && status["DeviceId"].Str? ==>
              r == Ok(model + "-" + status["DeviceId"].s + SuffixPart(suffix))
  {
    if "DeviceId" !in status then Err(PlatformNotReady)
    else Ok(model + "-" + PyStr(status["DeviceId"], containerStr) + SuffixPart(suffix))
  }

  /**
   The status keys the `PhilipsEntity` constructor reads a device's name and
   model id from, each in an older and a newer firmware spelling.
   */
  datatype EntityKeys = EntityKeys(name: string, newName: string, modelId: string, newModelId: string)

  /** What the `PhilipsEntity` constructor keeps from the status. */
  datatype DeviceInfo = DeviceInfo(serialNumber: Value, name: Value, modelName: Value, firmware: Value)

  /**
   `list(filter(None, map(status.get, [a, b])))[0]`: the first truthy value
   stored under `a` or `b`; `None` is the `IndexError` of an empty list.
   */
  function FirstTruthy(status: Status, a: string, b: string): (r: Option<Value>)
    ensures r.None? <==> !Truthy(GetOrNone(status, a)) && !Truthy(GetOrNone(status, b))
    ensures r.Some? ==> Truthy(r.value)
    ensures Truthy(GetOrNone(status, a)) ==> r == Some(status[a])
    ensures !Truthy(GetOrNone(status, a)) && Truthy(GetOrNone(status, b)) ==> r == Some(status[b])
  {
    if Truthy(GetOrNone(status, a)) then Some(status[a])
    else if Truthy(GetOrNone(status, b)) then Some(status[b])
    else None
  }

  /**
   The `PhilipsEntity` constructor: it reads `DeviceId`, the first truthy
   name, the first truthy model id and `WifiVersion`, in that order, and
   raises on the first that is missing.
   */
  function EntityInit(status: Status, keys: EntityKeys): (r: Result<DeviceInfo, IdError>)
    ensures "DeviceId" !in status ==> r == Err(MissingKey("DeviceId"))
    ensures r == Err(NoTruthyValue) <==>
              "DeviceId" in status
              && (FirstTruthy(status, keys.name, keys.newName).None? || FirstTruthy(status, keys.modelId, keys.newModelId).None?)
    ensures r == Err(MissingKey("WifiVersion")) <==>
              "DeviceId" in status && "WifiVersion" !in status
              && FirstTruthy(status, keys.name, keys.newName).Some? && FirstTruthy(status, keys.modelId, keys.newModelId).Some?
    ensures r.Err? ==> r.error != PlatformNotReady
    ensures r.Ok? ==>
              && r.value.serialNumber == status["DeviceId"]
              && r.value.firmware == status["WifiVersion"]
              && Truthy(r.value.name) && r.value.name in [GetOrNone(status, keys.name), GetOrNone(status, keys.newName)]
              && Truthy(r.value.modelName) && r.value.modelName in [GetOrNone(status, keys.modelId), GetOrNone(status, keys.newModelId)]
  {
    if "DeviceId" !in status then Err(MissingKey("DeviceId"))
    else
      match FirstTruthy(status, keys.name, keys.newName)
      case None => Err(NoTruthyValue)
      case Some(name) =>
        match FirstTruthy(status, keys.modelId, keys.newModelId)
        case None => Err(NoTruthyValue)
        case Some(modelName) =>
          if "WifiVersion" !in status then Err(MissingKey("WifiVersion"))
          else Ok(DeviceInfo(status["DeviceId"], name, modelName, status["WifiVersion"]))
  }

  /**
   The unique id of an entity built on `PhilipsEntity`: its constructor runs
   before the `try` that renders the id, so every status the `try` would
   turn into `PlatformNotReady` has already raised there.
   */
  function EntityUniqueId(model: string, status: Status, keys: EntityKeys, suffix: Option<string>, containerStr: Value -> string)
    : (r: Result<string, IdError>)
    ensures r != Err(PlatformNotReady)
    ensures "DeviceId" !in status ==> r == Err(MissingKey("DeviceId"))
    ensures r.Ok? <==> EntityInit(status, keys).Ok?
    ensures r.Err? ==> r.error == EntityInit(status, keys).error
    ensures r.Ok? ==> r == DeviceUniqueId(model, status, suffix, containerStr)
    ensures r.Ok? ==> r.value == model + "-" + PyStr(status["DeviceId"], containerStr) + SuffixPart(suffix)
  {
    match EntityInit(status, keys)
    case Err(e) => Err(e)
    case Ok(_) => DeviceUniqueId(model, status, suffix, containerStr)
  }

  /**
   The `PlatformNotReady` handler around a `PhilipsEntity`'s id is dead: a
   status without `DeviceId`, the case it was written for, raises the
   constructor's `KeyError` first, where the same `try` over a constructor
   that reads nothing raises `PlatformNotReady`.
   */
  lemma EntityIdHandlerDead(model: string, status: Status, keys: EntityKeys, suffix: Option<string>, containerStr: Value -> string)
    requires "DeviceId" !in status
    ensures EntityUniqueId(model, status, keys, suffix, containerStr) == Err(MissingKey("DeviceId"))
    ensures DeviceUniqueId(model, status, suffix, containerStr) == Err(PlatformNotReady)
  {
  }

  /**
   The entities of one device get distinct ids: ids built from the same
   status with different suffixes (or with and without one) differ.
   */
  lemma DistinctSuffixes(model: string, status: Status, a: Option<string>, b: Option<string>, containerStr: Value -> string)
    requires "DeviceId" in status && a != b
    ensures DeviceUniqueId(model, status, a, containerStr) != DeviceUniqueId(model, status, b, containerStr)
  {
    var p := model + "-" + PyStr(status["DeviceId"], containerStr);
    var x := p + SuffixPart(a);
    var y := p + SuffixPart(b);
    if a.Some? && b.Some? {
      if |a.value| == |b.value| {
        DifferAt(a.value, b.value);
        var i :| 0 <= i < |a.value| && a.value[i] != b.value[i];
        assert x[|p| + 1 + i] == a.value[i];
        assert y[|p| + 1 + i] == b.value[i];
      } else {
        assert |x| != |y|;
      }
    } else {
      assert |x| != |y|;
    }
  }

  lemma DifferAt(u: string, v: string)
    requires |u| == |v| && u != v
    ensures exists i :: 0 <= i < |u| && u[i] != v[i]
  {
  }
}
