/**
 The config flow's user step: validate the host the user typed, connect to
 the device, read its model, name and id from the status, and either
 create the config entry, abort, or show the form again with an error.
 */
module ConfigFlow {
  import opened Values

  /** `str.split(".")`. */
  function SplitDots(s: string): (r: seq<string>)
    ensures |r| >= 1
    ensures forall k :: 0 <= k < |r| ==> '.' !in r[k]
    decreases |s|
  {
    if s == "" then [""]
    else
      var rest := SplitDots(s[1..]);
      if s[0] == '.' then [""] + rest
      else [[s[0]] + rest[0]] + rest[1..]
  }

  /** `".".join(labels)`. */
  function JoinDots(labels: seq<string>): string
    requires |labels| >= 1
    decreases |labels|
  {
    if |labels| == 1 then labels[0] else labels[0] + "." + JoinDots(labels[1..])
  }

  /** Splitting a text prefix without dots only lengthens the first piece. */
  lemma {:induction false} SplitPrefix(a: string, t: string)
    requires '.' !in a
    ensures SplitDots(a + t) == [a + SplitDots(t)[0]] + SplitDots(t)[1..]
    decreases |a|
  {
    if a != [] {
      assert (a + t)[1..] == a[1..] + t;
      SplitPrefix(a[1..], t);
      assert [a[0]] + (a[1..] + SplitDots(t)[0]) == a + SplitDots(t)[0];
    } else {
      var r := SplitDots(t);
      assert a + t == t;
      assert a + r[0] == r[0];
      assert [r[0]] + r[1..] == r;
    }
  }

  /** Splitting and joining are inverse: every text is the join of its pieces, and dot-free pieces are recovered. */
  lemma {:induction false} SplitJoin(s: string)
    ensures JoinDots(SplitDots(s)) == s
    decreases |s|
  {
    if s != "" {
      SplitJoin(s[1..]);
      var rest := SplitDots(s[1..]);
      if s[0] != '.' && |rest| > 1 {
        assert JoinDots(rest) == rest[0] + "." + JoinDots(rest[1..]);
        assert [s[0]] + rest[0] + "." + JoinDots(rest[1..]) == [s[0]] + (rest[0] + "." + JoinDots(rest[1..]));
      }
      if s[0] == '.' {
        assert [""] + rest != [] && ([""] + rest)[1..] == rest;
      } else if |rest| > 1 {
        assert ([[s[0]] + rest[0]] + rest[1..])[1..] == rest[1..];
      }
    }
  }

  lemma {:induction false} JoinSplit(labels: seq<string>)
    requires |labels| >= 1 && forall k :: 0 <= k < |labels| ==> '.' !in labels[k]
    ensures SplitDots(JoinDots(labels)) == labels
    decreases |labels|
  {
    if |labels| == 1 {
      SplitPrefix(labels[0], "");
      assert labels[0] + "" == labels[0];
    } else {
      var t := "." + JoinDots(labels[1..]);
      JoinSplit(labels[1..]);
      assert t[1..] == JoinDots(labels[1..]);
      assert SplitDots(t) == [""] + labels[1..];
      SplitPrefix(labels[0], t);
      assert labels[0] + "." + JoinDots(labels[1..]) == labels[0] + t;
      assert labels[0] + "" == labels[0];
    }
  }

  /** `[a-zA-Z\d\-]`, with Python's Unicode-aware `\d` a parameter. */
  predicate AllowedChar(c: char, isDigit: char -> bool)
  {
    'a' <= c <= 'z' || 'A' <= c <= 'Z' || isDigit(c) || c == '-'
  }

  /** A label passes when it is non-empty and the disallowed pattern finds nothing in it. */
  predicate LabelOk(x: string, isDigit: char -> bool)
  {
    x != "" && forall i :: 0 <= i < |x| ==> AllowedChar(x[i], isDigit)
  }

  predicate LabelsOk(labels: seq<string>, isDigit: char -> bool)
  {
    forall k :: 0 <= k < |labels| ==> LabelOk(labels[k], isDigit)
  }

  /**
   `host_valid`: an IP address (`ipaddress.ip_address` is the parameter
   `isIp`), or a name every one of whose dot-separated labels passes.
   */
  function HostValid(host: string, isIp: string -> bool, isDigit: char -> bool): (r: bool)
    ensures r <==> isIp(host) || NameShape(host, isDigit)
  {
    LabelsOkShape(host, isDigit);
    isIp(host) || LabelsOk(SplitDots(host), isDigit)
  }

  /**
   A host name read character by character: not empty, no dot at either
   end, no two dots in a row, and nothing but dots and allowed characters.
   */
  predicate NameShape(s: string, isDigit: char -> bool)
  {
    s != "" && s[0] != '.' && s[|s| - 1] != '.' && TailShape(s, isDigit)
  }

  /** The character-level conditions on what follows the first character of a label. */
  predicate TailShape(t: string, isDigit: char -> bool)
  {
    (forall i :: 0 <= i < |t| ==> t[i] == '.' || AllowedChar(t[i], isDigit))
    && (forall i :: 0 <= i < |t| - 1 ==> !(t[i] == '.' && t[i + 1] == '.'))
    && (t != "" ==> t[|t| - 1] != '.')
  }

  /** The label-level conditions with the first label allowed to be empty. */
  predicate TailLabels(labels: seq<string>, isDigit: char -> bool)
    requires |labels| >= 1
  {
    (forall i :: 0 <= i < |labels[0]| ==> AllowedChar(labels[0][i], isDigit))
    && forall k :: 1 <= k < |labels| ==> LabelOk(labels[k], isDigit)
  }

  lemma FirstLabelEmpty(s: string)
    ensures SplitDots(s)[0] == "" <==> s == "" || s[0] == '.'
  {
  }

  lemma TailShapeCons(c: char, t: string, isDigit: char -> bool)
    ensures TailShape([c] + t, isDigit) <==>
              (c == '.' || AllowedChar(c, isDigit)) && TailShape(t, isDigit) && (c == '.' ==> t != "" && t[0] != '.')
  {
    var s := [c] + t;
    assert forall i :: 0 <= i < |t| ==> s[i + 1] == t[i];
    if TailShape(s, isDigit) {
      forall i | 0 <= i < |t| ensures t[i] == '.' || AllowedChar(t[i], isDigit) {
        assert s[i + 1] == t[i];
      }
      forall i | 0 <= i < |t| - 1 ensures !(t[i] == '.' && t[i + 1] == '.') {
        assert s[i + 1] == t[i] && s[i + 2] == t[i + 1];
      }
      assert s[0] == c;
      if t != "" {
        assert s[|s| - 1] == t[|t| - 1];
        assert s[1] == t[0];
      }
    }
    if (c == '.' || AllowedChar(c, isDigit)) && TailShape(t, isDigit) && (c == '.' ==> t != "" && t[0] != '.') {
      forall i | 0 <= i < |s| ensures s[i] == '.' || AllowedChar(s[i], isDigit) {
        if i > 0 {
          assert s[i] == t[i - 1];
        }
      }
      if t != "" {
        assert s[|s| - 1] == t[|t| - 1];
      }
      forall i | 0 <= i < |s| - 1 ensures !(s[i] == '.' && s[i + 1] == '.') {
        if i > 0 {
          assert s[i] == t[i - 1] && s[i + 1] == t[i];
        }
      }
    }
  }

  lemma {:induction false} TailLabelsShape(t: string, isDigit: char -> bool)
    ensures TailLabels(SplitDots(t), isDigit) <==> TailShape(t, isDigit)
    decreases |t|
  {
    if t != "" {
      var rest := SplitDots(t[1..]);
      TailLabelsShape(t[1..], isDigit);
      TailShapeCons(t[0], t[1..], isDigit);
      assert t == [t[0]] + t[1..];
      if t[0] == '.' {
        FirstLabelEmpty(t[1..]);
        TailLabelsDot(rest, isDigit);
      } else {
        TailLabelsChar(t[0], rest, isDigit);
      }
    }
  }

  /** A dot closes an empty first label: the next label must then be non-empty. */
  lemma TailLabelsDot(rest: seq<string>, isDigit: char -> bool)
    requires |rest| >= 1
    ensures TailLabels([""] + rest, isDigit) <==> TailLabels(rest, isDigit) && rest[0] != ""
  {
    var r := [""] + rest;
    if TailLabels(r, isDigit) {
      forall k | 0 <= k < |rest| ensures LabelOk(rest[k], isDigit) {
        assert r[k + 1] == rest[k];
      }
    }
    if TailLabels(rest, isDigit) && rest[0] != "" {
      forall k | 1 <= k < |r| ensures LabelOk(r[k], isDigit) {
        assert r[k] == rest[k - 1];
      }
    }
  }

  /** Any other character joins the first label. */
  lemma TailLabelsChar(c: char, rest: seq<string>, isDigit: char -> bool)
    requires |rest| >= 1
    ensures TailLabels([[c] + rest[0]] + rest[1..], isDigit) <==> AllowedChar(c, isDigit) && TailLabels(rest, isDigit)
  {
    var r := [[c] + rest[0]] + rest[1..];
    assert forall k :: 1 <= k < |r| ==> r[k] == rest[k];
    assert forall i :: 0 <= i < |rest[0]| ==> r[0][i + 1] == rest[0][i];
    if TailLabels(r, isDigit) {
      assert r[0][0] == c;
      forall i | 0 <= i < |rest[0]| ensures AllowedChar(rest[0][i], isDigit) {
        assert r[0][i + 1] == rest[0][i];
      }
    }
  }

  /**
   The label rule read at the character level: the empty host, a leading
   or trailing dot, and two dots in a row are exactly what a name with
   allowed characters can fail on.
   */
  lemma LabelsOkShape(s: string, isDigit: char -> bool)
    ensures LabelsOk(SplitDots(s), isDigit) <==> NameShape(s, isDigit)
  {
    var r := SplitDots(s);
    TailLabelsShape(s, isDigit);
    FirstLabelEmpty(s);
    if LabelsOk(r, isDigit) {
      assert LabelOk(r[0], isDigit);
    }
  }

  /** What `async_step_user` returns, or the exception it lets escape. */
  datatype Outcome =
    | ShowForm(errors: map<string, string>)
    | Abort(reason: string)
    | CreateEntry(title: string, data: map<string, Value>)
    | Raised(error: FlowError)

  datatype FlowError = KeyError | TypeError

  /** The outside world the step consults. */
  datatype World = World(
    isIp: string -> bool,             // `ipaddress.ip_address(host)` succeeds
    isDigit: char -> bool,            // `\d` matches the character
    connect: string -> Option<Status>, // the device's status, `None` when connecting or reading fails
    supported: set<string>,           // the keys of `model_to_class`
    configured: set<Value>)           // the unique ids of existing entries

  /**
   `async_step_user`. The form's host is a string (the form schema coerces
   it); the status's `type`, `name` and `DeviceId` are read before the model
   is checked and are not guarded.
   */
  function Step(input: Option<map<string, string>>, w: World): (r: Outcome)
    ensures input.None? ==> r == ShowForm(map[])
    ensures input.Some? && "host" !in input.value ==> r == Raised(KeyError)
    ensures input.Some? && "host" in input.value ==>
              var host := input.value["host"];
              (r.CreateEntry? <==>
                HostValid(host, w.isIp, w.isDigit)
                && w.connect(host).Some?
                && (var st := w.connect(host).value;
                    "type" in st && "name" in st && "DeviceId" in st
                    && st["type"].Str? && st["type"].s in w.supported
                    && st["name"].Str? && st["DeviceId"] !in w.configured))
              && (r.CreateEntry? ==>
                   var st := w.connect(host).value;
                   r.title == st["type"].s + " " + st["name"].s
                   && "device_id" in r.data && r.data["device_id"] == st["DeviceId"]
                   && "host" in r.data && r.data["host"] == Str(host))
  {
    if input.None? then ShowForm(map[])
    else if "host" !in input.value then Raised(KeyError)
    else if !HostValid(input.value["host"], w.isIp, w.isDigit) then ShowForm(map["host" := "host"])
    else match w.connect(input.value["host"])
      case None => ShowForm(map["host" := "connect"])
      case Some(status) =>
        if "type" !in status || "name" !in status || "DeviceId" !in status then Raised(KeyError)
        else
          var model := status["type"];
          var name := status["name"];
          var deviceId := status["DeviceId"];
          if model.Arr? || model.Obj? then Raised(TypeError)
          else if !model.Str? || model.s !in w.supported then Abort("model_unsupported")
          else if deviceId in w.configured then Abort("already_configured")
          else if !name.Str? then Raised(TypeError)
          else
            var data := (map k | k in input.value :: Str(input.value[k]))["model" := model]["name" := name]["device_id" := deviceId];
            CreateEntry(model.s + " " + name.s, data)
  }

  /** An invalid host re-shows the form with the `host` error and never looks at the device. */
  lemma InvalidHostNoConnect(input: map<string, string>, w: World, w': World)
    requires "host" in input && !HostValid(input["host"], w.isIp, w.isDigit)
    requires w'.isIp == w.isIp && w'.isDigit == w.isDigit
    ensures Step(Some(input), w) == ShowForm(map["host" := "host"])
    ensures Step(Some(input), w) == Step(Some(input), w')
  {
  }

  /** A valid host whose device cannot be reached re-shows the form with the `connect` error. */
  lemma ConnectFailure(input: map<string, string>, w: World)
    requires "host" in input && HostValid(input["host"], w.isIp, w.isDigit)
    ensures Step(Some(input), w) == ShowForm(map["host" := "connect"]) <==> w.connect(input["host"]).None?
  {
  }

  /** A model the integration does not know aborts the flow instead of creating an entry. */
  lemma UnsupportedModelAborts(input: map<string, string>, w: World)
    requires "host" in input && HostValid(input["host"], w.isIp, w.isDigit) && w.connect(input["host"]).Some?
    requires var st := w.connect(input["host"]).value;
             "type" in st && "name" in st && "DeviceId" in st && st["type"].Str? && st["type"].s !in w.supported
    ensures Step(Some(input), w) == Abort("model_unsupported")
  {
  }
}
