/**
 The status keys, service values and lookup tables of the integration's
 constants, and the water-level rule built on the error codes.
 */
module Constants {
  import opened Values

  const Power := "pwr"
  const DeviceId := "DeviceId"
  const ErrorCode := "err"
  const Function := "func"
  const DisplayBacklight := "uil"
  const LightBrightness := "aqil"

  /**
   The keys of `SENSOR_TYPES`, in the dict's order: the pre, HEPA,
   active-carbon and wick filters, the water level, then the air quality
   index, allergen index, PM2.5, TVOC, humidity and temperature.
   */
  const SensorTypes: seq<string> := ["fltsts0", "fltsts1", "fltsts2", "wicksts", "wl", "aqit", "iaql", "pm25", "tvoc", "rh", "temp"]

  /** The values the `set_function` service accepts. */
  const FunctionPurification := "purification"
  const FunctionPurificationHumidification := "purification_humidification"

  const PreferredIndexMap: map<string, string> := map["0" := "Indoor Allergen Index", "1" := "PM2.5", "2" := "Gas"]
  const DisplayBacklightMap: map<string, bool> := map["0" := false, "1" := true]
  const FunctionMap: map<string, string> := map["P" := "Purification", "PH" := "Purification and Humidification"]
  const ErrorCodeMap: map<int, string> := map[
    32768 := "no water",
    49153 := "pre-filter must be cleaned",
    49155 := "pre-filter must be cleaned",
    49408 := "no water"]

  lemma FunctionMapKeys()
    ensures FunctionMap.Keys == {"P", "PH"}
  {
  }

  /** The codes `ERROR_CODE_MAP` labels "no water". */
  function NoWaterCodes(): (codes: set<int>)
    ensures forall c :: c in codes <==> c in ErrorCodeMap && ErrorCodeMap[c] == "no water"
  {
    set c | c in ErrorCodeMap && ErrorCodeMap[c] == "no water"
  }

  /** The water-level sensor's converter: 0 while the device reports a no-water error, the raw value otherwise. */
  function WaterLevel(value: Value, status: Status): (r: Value)
  {
    if GetOrNone(status, ErrorCode) in [Int(32768), Int(49408)] then Int(0) else value
  }

  /** The water level is forced to 0 exactly for the error codes the error map calls "no water". */
  lemma WaterLevelNoWater(value: Value, status: Status)
    requires value != Int(0)
    ensures WaterLevel(value, status) == Int(0) <==>
              GetOrNone(status, ErrorCode).Int? && GetOrNone(status, ErrorCode).i in NoWaterCodes()
    ensures WaterLevel(value, status) != Int(0) ==> WaterLevel(value, status) == value
  {
    var e := GetOrNone(status, ErrorCode);
    if e.Int? && e.i in NoWaterCodes() {
      assert e.i in ErrorCodeMap;
      assert e.i == 32768 || e.i == 49408;
    }
  }

  /** A dict table as the value map of an attribute: string keys and values become JSON strings and booleans. */
  function StringTable(m: map<string, string>): (t: map<Value, Value>)
    ensures forall k :: k in m <==> Str(k) in t
    ensures forall k :: k in m ==> t[Str(k)] == Str(m[k])
  {
    map k | k in m :: Str(k) := Str(m[k])
  }
}
