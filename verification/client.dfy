/**
 The session logic of the CoAP client: the rotating client key, encryption
 of control payloads, the sync handshake, status reads and the bounded
 resync-then-retry loop of `set_control_value`.

 The network is a script of the replies the device gives, consumed in order;
 every request the client sends is appended to a log. A script that runs
 out stands for a reply that never arrives.
 */
module Client {
  import opened Values
  import opened Hex
  import Utf8
  import JsonBytes
  import Codec
  import OrderedMap

  /** Four bytes of `os.urandom(4)`. */
  type Nonce = s: seq<byte> | |s| == 4 witness [0, 0, 0, 0]

  /** The replies the device will send, and the random nonces the client will draw. */
  datatype Script = Script(
    syncReplies: seq<seq<byte>>,
    controlReplies: seq<seq<byte>>,
    statusReplies: seq<seq<byte>>,
    nonces: seq<Nonce>)

  /** A request sent to the device, with its payload text. */
  datatype Request =
    | SyncRequest(nonce: string)
    | ControlRequest(envelope: string)
    | StatusRequest

  /** The client: the held key (`None` before the first sync), the network script and the request log. */
  datatype State = State(key: Option<string>, script: Script, sent: seq<Request>)

  /**
   Library calls. `seal(key, payload)` and `open(envelope)` are the
   encryption and decryption of module Codec once a key is chosen (`Bound`
   ties them to it); `dumps(d)` is `json.dumps({"state": {"desired": d}})`
   for an ordered dict `d`, `loads` is `json.loads` on text, and `decodeWide`
   is the UTF-16 and UTF-32 decoding `json.loads` applies to bytes it
   detects as such.
   */
  datatype Env = Env(
    prims: Codec.Primitives,
    seal: (string, string) -> string,
    open: string -> Result<string, Codec.OpenError>,
    dumps: OrderedMap.OMap<string, Value> -> string,
    loads: string -> Option<Value>,
    decodeWide: (JsonBytes.Encoding, seq<byte>) -> Option<string>)

  /** The envelope functions are the ones module Codec defines, over sound primitives. */
  ghost predicate Bound(env: Env)
  {
    Codec.Sound(env.prims)
    && (forall key, payload :: env.seal(key, payload) == Codec.Seal(env.prims, key, payload))
    && (forall e :: env.open(e) == Codec.Open(env.prims, e))
  }

  /** The exception a client operation raised. */
  datatype ClientError =
    | KeyNotSet                         // int(None, 16): TypeError
    | KeyNotHex                         // int(key, 16): ValueError
    | KeyOverflow                       // to_bytes(4): OverflowError
    | Decrypt(reason: Codec.OpenError)  // from _decrypt_payload
    | NotUtf8                           // payload.decode() or json.loads(bytes): UnicodeDecodeError
    | NotJson                           // json.loads: JSONDecodeError
    | NoReported                        // ["state"]["reported"]: KeyError or TypeError
    | ReplyNotObject                    // result.get on a non-dict: AttributeError
    | NoResponse                        // the device never answered

  /** The client after an operation, and what the operation returned or raised. */
  datatype Step<T> = Step(state: State, result: Result<T, ClientError>)

  const KeyLimit: nat := 0x1_0000_0000

  /**
   `(int(key, 16) + 1).to_bytes(4, "big").hex().upper()`: the held key read
   as a signed hexadecimal number, advanced by one and written back as
   eight upper-case digits, which `int(_, 16)` reads back as that number.
   */
  function NextKeyText(key: Option<string>): (r: Result<string, ClientError>)
    ensures key.None? ==> r == Err(KeyNotSet)
    ensures key.Some? && PyIntHex(key.value).None? ==> r == Err(KeyNotHex)
    ensures key.Some? && PyIntHex(key.value).Some? ==>
              (r == Err(KeyOverflow) <==> !(0 <= PyIntHex(key.value).value + 1 < KeyLimit))
    ensures r.Ok? ==> |r.value| == Codec.KeyLength && IsUpperHex(r.value)
                      && PyIntHex(r.value).Some? && PyIntHex(r.value).value == PyIntHex(key.value).value + 1
  {
    match key
    case None => Err(KeyNotSet)
    case Some(k) =>
      match PyIntHex(k)
      case None => Err(KeyNotHex)
      case Some(n) =>
        Pow256Four();
        match ToBytes(n + 1, 4)
        case None => Err(KeyOverflow)
        case Some(bs) =>
          ParseHexUpper(bs);
          PyIntHexPlain(HexUpper(bs));
          Ok(HexUpper(bs))
  }

  /**
   `_get_client_key_next(store)`: the next key; with `store` it replaces the
   held key, without it the client is left as it was.
   */
  function GetClientKeyNext(st: State, store: bool): (r: Step<string>)
    ensures r.result.Ok? <==> NextKeyText(st.key).Ok?
    ensures r.result.Ok? ==> r.result.value == NextKeyText(st.key).value
    ensures r.state.sent == st.sent && r.state.script == st.script
    ensures r.state.key == if store && r.result.Ok? then Some(r.result.value) else st.key
  {
    match NextKeyText(st.key)
    case Err(e) => Step(st, Err(e))
    case Ok(k) => Step(if store then st.(key := Some(k)) else st, Ok(k))
  }

  /** `_set_client_key`. */
  function SetClientKey(st: State, key: string): (r: State)
    ensures r.key == Some(key) && r.script == st.script && r.sent == st.sent
  {
    st.(key := Some(key))
  }

  /**
   `_encrypt_payload`: advance the held key once and seal the payload under
   the new key.
   */
  function EncryptPayload(env: Env, st: State, payload: string): (r: Step<string>)
    ensures r.state.sent == st.sent && r.state.script == st.script
    ensures NextKeyText(st.key).Err? ==> r == Step(st, Err(NextKeyText(st.key).error))
    ensures NextKeyText(st.key).Ok? ==>
              r.state.key == Some(NextKeyText(st.key).value)
              && r.result == Ok(env.seal(NextKeyText(st.key).value, payload))
  {
    var next := GetClientKeyNext(st, true);
    match next.result
    case Err(e) => Step(next.state, Err(e))
    case Ok(k) => Step(next.state, Ok(env.seal(k, payload)))
  }

  /** `_decrypt_payload`: depends on the envelope alone, never on the held key. */
  function DecryptPayload(env: Env, envelope: string): (r: Result<string, ClientError>)
    ensures r.Err? ==> r.error.Decrypt?
    ensures r.Ok? <==> env.open(envelope).Ok?
  {
    match env.open(envelope)
    case Err(reason) => Err(Decrypt(reason))
    case Ok(text) => Ok(text)
  }

  /**
   The envelope carries the advanced key in front, and decrypts back to the
   payload whatever key the client holds by then.
   */
  lemma EncryptedEnvelope(env: Env, st: State, payload: string)
    requires Bound(env) && NextKeyText(st.key).Ok?
    ensures var e := EncryptPayload(env, st, payload).result.value;
            e[..Codec.KeyLength] == NextKeyText(st.key).value
            && |e| > Codec.KeyLength + Codec.DigestLength
            && DecryptPayload(env, e) == Ok(payload)
  {
    var k := NextKeyText(st.key).value;
    var e := env.seal(k, payload);
    assert e == Codec.Seal(env.prims, k, payload);
    Codec.OpenSeal(env.prims, k, payload);
    assert env.open(e) == Codec.Open(env.prims, e);
  }

  /**
   `_sync`: send a fresh 8-character upper-case hex nonce and take the
   reply text, verbatim, as the new client key.
   */
  function Sync(st: State): (r: Step<string>)
    ensures r.state.script.controlReplies == st.script.controlReplies
    ensures r.state.script.statusReplies == st.script.statusReplies
    ensures st.script.nonces == [] ==> r == Step(st, Err(NoResponse))
    ensures st.script.nonces != [] ==>
              |r.state.sent| == |st.sent| + 1 && r.state.sent[..|st.sent|] == st.sent
              && r.state.sent[|st.sent|].SyncRequest?
              && |r.state.sent[|st.sent|].nonce| == 8 && IsUpperHex(r.state.sent[|st.sent|].nonce)
    ensures r.result.Ok? ==>
              st.script.syncReplies != []
              && Utf8.Decode(st.script.syncReplies[0]) == Some(r.result.value)
              && r.state.key == Some(r.result.value)
    ensures r.result.Err? ==> r.state.key == st.key
    ensures st.script.nonces != [] && st.script.syncReplies != [] ==>
              r.state.script.nonces == st.script.nonces[1..]
              && r.state.script.syncReplies == st.script.syncReplies[1..]
              && (Utf8.Decode(st.script.syncReplies[0]).Some? ==> r.result.Ok?)
  {
    if st.script.nonces == [] then Step(st, Err(NoResponse))
    else
      var nonce := HexUpper(st.script.nonces[0]);
      var sent := st.sent + [SyncRequest(nonce)];
      var script := st.script.(nonces := st.script.nonces[1..]);
      if script.syncReplies == [] then Step(st.(script := script, sent := sent), Err(NoResponse))
      else
        var reply := script.syncReplies[0];
        var st' := st.(script := script.(syncReplies := script.syncReplies[1..]), sent := sent);
        match Utf8.Decode(reply)
        case None => Step(st', Err(NotUtf8))
        case Some(text) => Step(SetClientKey(st', text), Ok(text))
  }

  /** A sync sets the key the device chose; the key the client held plays no part. */
  lemma SyncSetsKey(st: State, held: Option<string>)
    ensures Sync(st.(key := held)).result == Sync(st).result
    ensures Sync(st).result.Ok? ==> Sync(st.(key := held)).state == Sync(st).state
  {
  }

  /** `state_reported["state"]["reported"]`. */
  function Reported(v: Value): (r: Option<Value>)
    ensures r.Some? <==> v.Obj? && "state" in v.fields && v.fields["state"].Obj? && "reported" in v.fields["state"].fields
  {
    if v.Obj? && "state" in v.fields && v.fields["state"].Obj? && "reported" in v.fields["state"].fields
    then Some(v.fields["state"].fields["reported"])
    else None
  }

  /** Decode, decrypt, parse and unwrap one status response payload. */
  function StatusOf(env: Env, reply: seq<byte>): (r: Result<Value, ClientError>)
    ensures Utf8.Decode(reply).None? ==> r == Err(NotUtf8)
    ensures Utf8.Decode(reply).Some? && env.open(Utf8.Decode(reply).value).Err? ==>
              r == Err(Decrypt(env.open(Utf8.Decode(reply).value).error))
    ensures r.Ok? <==>
              Utf8.Decode(reply).Some? && env.open(Utf8.Decode(reply).value).Ok?
              && env.loads(env.open(Utf8.Decode(reply).value).value).Some?
              && Reported(env.loads(env.open(Utf8.Decode(reply).value).value).value).Some?
    ensures r.Ok? ==>
              var doc := env.loads(env.open(Utf8.Decode(reply).value).value).value;
              doc.Obj? && "state" in doc.fields && doc.fields["state"].Obj?
              && r.value == doc.fields["state"].fields["reported"]
  {
    match Utf8.Decode(reply)
    case None => Err(NotUtf8)
    case Some(envelope) =>
      match DecryptPayload(env, envelope)
      case Err(e) => Err(e)
      case Ok(payload) =>
        match env.loads(payload)
        case None => Err(NotJson)
        case Some(doc) =>
          match Reported(doc)
          case None => Err(NoReported)
          case Some(v) => Ok(v)
  }

  /**
   A status reply carrying an envelope sealed with any key of the right
   length yields the `state.reported` member of the sealed JSON text.
   */
  lemma StatusOfSealed(env: Env, key: string, payload: string)
    requires Bound(env) && |key| == Codec.KeyLength
    ensures var r := StatusOf(env, Utf8.Encode(env.seal(key, payload)));
            (r.Ok? <==> env.loads(payload).Some? && Reported(env.loads(payload).value).Some?)
            && (r.Ok? ==> r.value == Reported(env.loads(payload).value).value)
            && (env.loads(payload).None? ==> r == Err(NotJson))
  {
    var e := env.seal(key, payload);
    assert e == Codec.Seal(env.prims, key, payload);
    Codec.OpenSeal(env.prims, key, payload);
    assert env.open(e) == Codec.Open(env.prims, e);
    Utf8.DecodeEncode(e);
  }

  /** `get_status`: one GET, one reply; the held key is neither used nor changed. */
  function GetStatus(env: Env, st: State): (r: Step<Value>)
    ensures r.state.key == st.key
    ensures r.state.sent == st.sent + [StatusRequest]
    ensures st.script.statusReplies == [] ==> r.result == Err(NoResponse)
    ensures st.script.statusReplies != [] ==>
              r.result == StatusOf(env, st.script.statusReplies[0])
              && r.state.script == st.script.(statusReplies := st.script.statusReplies[1..])
  {
    var sent := st.sent + [StatusRequest];
    if st.script.statusReplies == [] then Step(st.(sent := sent), Err(NoResponse))
    else
      var reply := st.script.statusReplies[0];
      Step(st.(sent := sent, script := st.script.(statusReplies := st.script.statusReplies[1..])), StatusOf(env, reply))
  }

  /**
   `observe_status` over a finite run of notifications: the statuses it
   yields, and the exception that ended the run if one did.
   */
  function ObserveStatus(env: Env, replies: seq<seq<byte>>): (r: (seq<Value>, Option<ClientError>))
    ensures |r.0| <= |replies|
    ensures forall i :: 0 <= i < |r.0| ==> StatusOf(env, replies[i]) == Ok(r.0[i])
    ensures r.1.None? <==> |r.0| == |replies|
    ensures r.1.Some? ==> StatusOf(env, replies[|r.0|]) == Err(r.1.value)
    decreases |replies|
  {
    if replies == [] then ([], None)
    else match StatusOf(env, replies[0])
      case Err(e) => ([], Some(e))
      case Ok(v) =>
        var rest := ObserveStatus(env, replies[1..]);
        ([v] + rest.0, rest.1)
  }

  /** The desired-state dict: three fixed entries, then `key: value` (which may overwrite one of them). */
  function Desired(key: string, value: Value): (d: OrderedMap.OMap<string, Value>)
    ensures OrderedMap.Get(d, key) == Some(value)
    ensures OrderedMap.Valid(d)
    ensures |d| >= 3 && OrderedMap.Keys(d)[..3] == ["CommandType", "DeviceId", "EnduserId"]
  {
    var base := [("CommandType", Str("app")), ("DeviceId", Str("")), ("EnduserId", Str(""))];
    var ks := OrderedMap.Keys(base);
    assert ks == ["CommandType", "DeviceId", "EnduserId"];
    assert ks[0][0] == 'C' && ks[1][0] == 'D' && ks[2][0] == 'E';
    assert OrderedMap.Valid(base);
    OrderedMap.PutValid(base, key, value);
    OrderedMap.Put(base, key, value)
  }

  /** Whether a control reply says `"status": "success"`; the reply bytes go to `json.loads` as they are. */
  function ReplyAcknowledged(env: Env, reply: seq<byte>): (r: Result<bool, ClientError>)
    ensures r.Ok? <==> ReplyText(env, reply).Some? && env.loads(ReplyText(env, reply).value).Some?
                       && env.loads(ReplyText(env, reply).value).value.Obj?
    ensures r.Ok? ==>
              var fields := env.loads(ReplyText(env, reply).value).value.fields;
              r.value <==> "status" in fields && fields["status"] == Str("success")
    ensures ReplyText(env, reply).None? ==> r == Err(NotUtf8)
  {
    match ReplyText(env, reply)
    case None => Err(NotUtf8)
    case Some(text) =>
      match env.loads(text)
      case None => Err(NotJson)
      case Some(v) =>
        if v.Obj? then Ok(GetOrNone(v.fields, "status") == Str("success")) else Err(ReplyNotObject)
  }

  /** The text `json.loads` parses when given the reply bytes. */
  function ReplyText(env: Env, reply: seq<byte>): Option<string>
  {
    JsonBytes.Decode(reply, env.decodeWide)
  }

  /**
   A reply of UTF-8 JSON text is read the same with or without a UTF-8 byte
   order mark, and acknowledges exactly when the parsed object's `status`
   is `"success"`.
   */
  lemma ReplyBomTransparent(env: Env, text: string)
    requires |text| >= 1 && 0 < text[0] as int < 0x80
    requires |text| >= 2 ==> text[1] != '\0'
    ensures ReplyAcknowledged(env, JsonBytes.Bom8 + Utf8.Encode(text)) == ReplyAcknowledged(env, Utf8.Encode(text))
    ensures ReplyAcknowledged(env, Utf8.Encode(text)).Ok? <==> env.loads(text).Some? && env.loads(text).value.Obj?
    ensures ReplyAcknowledged(env, Utf8.Encode(text)) == Ok(true) <==>
              env.loads(text).Some? && env.loads(text).value.Obj?
              && "status" in env.loads(text).value.fields && env.loads(text).value.fields["status"] == Str("success")
  {
    JsonBytes.DecodeBom(text, env.decodeWide);
    JsonBytes.DecodePlain(text, env.decodeWide);
  }

  /** The JSON text `set_control_value` encrypts: `{"state": {"desired": Desired(key, value)}}`. */
  function ControlPayload(env: Env, key: string, value: Value): string
  {
    env.dumps(Desired(key, value))
  }

  /**
   One pass of `set_control_value` up to the reply check: encrypt the
   payload (advancing the key), decrypt it again for the debug log, POST it
   and read whether the device acknowledged.
   */
  function Attempt(env: Env, st: State, payload: string): (r: Step<bool>)
    ensures r.state.script.syncReplies == st.script.syncReplies && r.state.script.nonces == st.script.nonces
    ensures NextKeyText(st.key).Err? ==> r == Step(st, Err(NextKeyText(st.key).error))
    ensures NextKeyText(st.key).Ok? ==> r.state.key == Some(NextKeyText(st.key).value)
    ensures r.result.Ok? ==>
              st.script.controlReplies != []
              && r.state.sent == st.sent + [ControlRequest(env.seal(NextKeyText(st.key).value, payload))]
              && r.state.script.controlReplies == st.script.controlReplies[1..]
              && r.result == ReplyAcknowledged(env, st.script.controlReplies[0])
  {
    var enc := EncryptPayload(env, st, payload);
    match enc.result
    case Err(e) => Step(enc.state, Err(e))
    case Ok(envelope) =>
      match DecryptPayload(env, envelope)
      case Err(e) => Step(enc.state, Err(e))
      case Ok(_) =>
        var posted := enc.state.(sent := enc.state.sent + [ControlRequest(envelope)]);
        if posted.script.controlReplies == [] then Step(posted, Err(NoResponse))
        else
          var reply := posted.script.controlReplies[0];
          var after := posted.(script := posted.script.(controlReplies := posted.script.controlReplies[1..]));
          Step(after, ReplyAcknowledged(env, reply))
  }

  /**
   With the real codec the debug decryption never fails, so an attempt with
   a usable key always POSTs the sealed payload and reads one reply when
   there is one.
   */
  lemma AttemptPosts(env: Env, st: State, payload: string)
    requires Opens(env) && NextKeyText(st.key).Ok?
    ensures var r := Attempt(env, st, payload);
            var k := NextKeyText(st.key).value;
            r.state.sent == st.sent + [ControlRequest(env.seal(k, payload))]
            && DecryptPayload(env, env.seal(k, payload)) == Ok(payload)
            && (st.script.controlReplies == [] ==> r.result == Err(NoResponse))
            && (st.script.controlReplies != [] ==> r.result == ReplyAcknowledged(env, st.script.controlReplies[0]))
  {
    var k := NextKeyText(st.key).value;
    assert EncryptPayload(env, st, payload).result == Ok(env.seal(k, payload));
    assert env.open(env.seal(k, payload)) == Ok(payload);
  }

  /** What an attempt needs of the codec: a payload sealed under a key of the right length opens back to it. */
  ghost predicate Opens(env: Env)
  {
    forall key, payload :: |key| == Codec.KeyLength ==> env.open(env.seal(key, payload)) == Ok(payload)
  }

  lemma BoundOpens(env: Env)
    requires Bound(env)
    ensures Opens(env)
  {
    forall key, payload | |key| == Codec.KeyLength
      ensures env.open(env.seal(key, payload)) == Ok(payload)
    {
      Codec.OpenSeal(env.prims, key, payload);
      assert env.seal(key, payload) == Codec.Seal(env.prims, key, payload);
      assert env.open(env.seal(key, payload)) == Codec.Open(env.prims, env.seal(key, payload));
    }
  }

  function Max0(n: int): nat
  {
    if n > 0 then n else 0
  }

  /**
   One round of `set_control_value`: an attempt and, after a reply that did
   not acknowledge, the resync when asked. `Ok(false)` means the call goes on
   to its retry check.
   */
  function Round(env: Env, st: State, payload: string, resync: bool): (r: Step<bool>)
    ensures r.result.Ok? ==>
              st.script.controlReplies != []
              && r.state.script.controlReplies == st.script.controlReplies[1..]
              && r.result == ReplyAcknowledged(env, st.script.controlReplies[0])
    ensures r.result == Ok(true) ==> r == Attempt(env, st, payload)
  {
    var a := Attempt(env, st, payload);
    if a.result.Err? || a.result.value || !resync then a
    else
      var s := Sync(a.state);
      if s.result.Err? then Step(s.state, Err(s.result.error)) else Step(s.state, Ok(false))
  }

  /** A round of the client, as a value the retry policy can be stated over. */
  type RoundFn = State -> Step<bool>

  function RoundFor(env: Env, payload: string, resync: bool): RoundFn
  {
    s => Round(env, s, payload, resync)
  }

  /**
   The retry policy of `set_control_value`: run a round; stop on an
   exception or an acknowledgement, or when the count is spent; otherwise
   retry with the count one less.
   */
  function Retry(round: RoundFn, st: State, retryCount: int): Step<bool>
    decreases Max0(retryCount)
  {
    var r := round(st);
    if r.result.Err? || r.result.value || retryCount <= 0 then r
    else Retry(round, r.state, retryCount - 1)
  }

  /**
   `set_control_value(key, value, retry_count, resync)` for the payload the
   call encrypts. The source writes the retry as a recursive call with
   `retry_count - 1`; the result tells whether the last reply was an
   acknowledgement.
   */
  function ControlSpec(env: Env, st: State, payload: string, retryCount: int, resync: bool): (r: Step<bool>)
    ensures r.result.Ok? ==>
              var posts := Posts(Added(st, r.state));
              Extends(st, r.state)
              && 1 <= posts <= Max0(retryCount) + 1
              && (!r.result.value ==> posts == Max0(retryCount) + 1)
              && Syncs(Added(st, r.state)) == (if !resync then 0 else if r.result.value then posts - 1 else posts)
    ensures r.result.Ok? ==> RepliesRead(env, st.script.controlReplies, r)
    ensures r.result.Ok? ==> Posts(Added(st, r.state)) == |st.script.controlReplies| - |r.state.script.controlReplies|
    ensures st.script.controlReplies == [] ==> r.result.Err?
  {
    RetrySends(env, st, payload, retryCount, resync);
    RetryReads(env, st, payload, retryCount, resync);
    RetryPostsReplies(env, st, payload, retryCount, resync);
    Retry(RoundFor(env, payload, resync), st, retryCount)
  }

  /** The number of control POSTs in a request log. */
  function Posts(rs: seq<Request>): nat
  {
    if rs == [] then 0 else Posts(rs[..|rs| - 1]) + (if rs[|rs| - 1].ControlRequest? then 1 else 0)
  }

  /** The number of sync requests in a request log. */
  function Syncs(rs: seq<Request>): nat
  {
    if rs == [] then 0 else Syncs(rs[..|rs| - 1]) + (if rs[|rs| - 1].SyncRequest? then 1 else 0)
  }

  lemma {:induction false} CountsConcat(a: seq<Request>, b: seq<Request>)
    ensures Posts(a + b) == Posts(a) + Posts(b)
    ensures Syncs(a + b) == Syncs(a) + Syncs(b)
    decreases |b|
  {
    if b == [] {
      assert a + b == a;
    } else {
      CountsConcat(a, b[..|b| - 1]);
      assert (a + b)[..|a + b| - 1] == a + b[..|b| - 1];
    }
  }

  /** Whether `after`'s request log extends `before`'s. */
  predicate Extends(before: State, after: State)
  {
    |before.sent| <= |after.sent| && after.sent[..|before.sent|] == before.sent
  }

  /** Requests a run added to the log, provided the log only grew. */
  function Added(before: State, after: State): seq<Request>
  {
    if |before.sent| <= |after.sent| then after.sent[|before.sent|..] else []
  }

  lemma AddedConcat(before: State, mid: State, after: State)
    requires Extends(before, mid) && Extends(mid, after)
    ensures Extends(before, after)
    ensures Added(before, after) == Added(before, mid) + Added(mid, after)
  {
    assert after.sent == mid.sent + Added(mid, after);
    assert mid.sent == before.sent + Added(before, mid);
    assert after.sent == before.sent + (Added(before, mid) + Added(mid, after));
  }

  lemma Singletons(r: Request)
    ensures Posts([r]) == (if r.ControlRequest? then 1 else 0)
    ensures Syncs([r]) == (if r.SyncRequest? then 1 else 0)
  {
    assert [r][..0] == [];
  }

  /**
   What every round that returns normally sends: one POST, and one sync
   exactly when it resynced after a reply that did not acknowledge.
   */
  ghost predicate SendsPerRound(round: RoundFn, resync: bool)
  {
    forall s :: round(s).result.Ok? ==>
      Extends(s, round(s).state)
      && Posts(Added(s, round(s).state)) == 1
      && Syncs(Added(s, round(s).state)) == (if resync && !round(s).result.value then 1 else 0)
  }

  /** What every round that returns normally reads: the next control reply, whose acknowledgement it reports. */
  ghost predicate ReadsOneReply(round: RoundFn, env: Env)
  {
    forall s :: round(s).result.Ok? ==>
      s.script.controlReplies != []
      && round(s).state.script.controlReplies == s.script.controlReplies[1..]
      && round(s).result == ReplyAcknowledged(env, s.script.controlReplies[0])
  }

  /** An attempt that returned normally added exactly one request to the log: its POST. */
  lemma AttemptSendsOne(env: Env, st: State, payload: string)
    requires Attempt(env, st, payload).result.Ok?
    ensures var a := Attempt(env, st, payload);
            Extends(st, a.state) && Added(st, a.state) == [a.state.sent[|st.sent|]]
            && a.state.sent[|st.sent|].ControlRequest?
  {
  }

  /** A sync that sent its request added exactly that one request to the log. */
  lemma SyncSendsOne(st: State)
    requires st.script.nonces != []
    ensures var sy := Sync(st);
            Extends(st, sy.state) && Added(st, sy.state) == [sy.state.sent[|st.sent|]]
            && sy.state.sent[|st.sent|].SyncRequest?
  {
  }

  /** A client round sends a POST and, when it resyncs, one sync request. */
  lemma RoundSends(env: Env, st: State, payload: string, resync: bool)
    requires Round(env, st, payload, resync).result.Ok?
    ensures var r := Round(env, st, payload, resync);
            Extends(st, r.state)
            && Posts(Added(st, r.state)) == 1
            && Syncs(Added(st, r.state)) == (if resync && !r.result.value then 1 else 0)
  {
    var a := Attempt(env, st, payload);
    var r := Round(env, st, payload, resync);
    assert a.result.Ok?;
    if resync && !a.result.value {
      var sy := Sync(a.state);
      assert sy.result.Ok? && r.state == sy.state;
      AttemptSendsOne(env, st, payload);
      SyncSendsOne(a.state);
      TwoSends(st, a.state, sy.state);
    } else {
      assert r == a;
      AttemptSendsOne(env, st, payload);
      Singletons(a.state.sent[|st.sent|]);
    }
  }

  /** A POST followed by a sync request: one of each in the log. */
  lemma TwoSends(st: State, mid: State, after: State)
    requires Extends(st, mid) && |mid.sent| == |st.sent| + 1 && mid.sent[|st.sent|].ControlRequest?
    requires Extends(mid, after) && |after.sent| == |mid.sent| + 1 && after.sent[|mid.sent|].SyncRequest?
    ensures Extends(st, after) && Posts(Added(st, after)) == 1 && Syncs(Added(st, after)) == 1
  {
    var post := mid.sent[|st.sent|];
    var req := after.sent[|mid.sent|];
    Singletons(post);
    Singletons(req);
    assert Added(st, mid) == [post] && Added(mid, after) == [req];
    AddedConcat(st, mid, after);
    CountsConcat([post], [req]);
  }

  lemma RoundForSends(env: Env, payload: string, resync: bool)
    ensures SendsPerRound(RoundFor(env, payload, resync), resync)
  {
    forall s | RoundFor(env, payload, resync)(s).result.Ok?
      ensures var r := RoundFor(env, payload, resync)(s);
              Extends(s, r.state)
              && Posts(Added(s, r.state)) == 1
              && Syncs(Added(s, r.state)) == (if resync && !r.result.value then 1 else 0)
    {
      RoundSends(env, s, payload, resync);
    }
  }

  lemma RoundForReads(env: Env, payload: string, resync: bool)
    ensures ReadsOneReply(RoundFor(env, payload, resync), env)
  {
  }

  /**
   Counting the requests of a retry run that returned normally, given what
   each round sends: one POST per round, at most `retry_count + 1` rounds,
   all of them unless one was acknowledged; with `resync`, one sync after
   every unacknowledged reply, and none without it.
   */
  lemma {:induction false} RetryCounts(round: RoundFn, st: State, retryCount: int, resync: bool)
    requires SendsPerRound(round, resync)
    requires Retry(round, st, retryCount).result.Ok?
    ensures var out := Retry(round, st, retryCount);
            var posts := Posts(Added(st, out.state));
            Extends(st, out.state)
            && 1 <= posts <= Max0(retryCount) + 1
            && (!out.result.value ==> posts == Max0(retryCount) + 1)
            && Syncs(Added(st, out.state)) == (if !resync then 0 else if out.result.value then posts - 1 else posts)
    decreases Max0(retryCount)
  {
    var out := Retry(round, st, retryCount);
    var r := round(st);
    assert r.result.Ok?;
    if !r.result.value && retryCount > 0 {
      RetryCounts(round, r.state, retryCount - 1, resync);
      AddedConcat(st, r.state, out.state);
      CountsConcat(Added(st, r.state), Added(r.state, out.state));
    }
  }

  /** What the retry run of `set_control_value` sends, when it returns normally. */
  lemma RetrySends(env: Env, st: State, payload: string, retryCount: int, resync: bool)
    ensures var out := Retry(RoundFor(env, payload, resync), st, retryCount);
            out.result.Ok? ==>
              var posts := Posts(Added(st, out.state));
              Extends(st, out.state)
              && 1 <= posts <= Max0(retryCount) + 1
              && (!out.result.value ==> posts == Max0(retryCount) + 1)
              && Syncs(Added(st, out.state)) == (if !resync then 0 else if out.result.value then posts - 1 else posts)
  {
    if Retry(RoundFor(env, payload, resync), st, retryCount).result.Ok? {
      RoundForSends(env, payload, resync);
      RetryCounts(RoundFor(env, payload, resync), st, retryCount, resync);
    }
  }

  /** Which replies the retry run of `set_control_value` reads, when it returns normally. */
  lemma RetryReads(env: Env, st: State, payload: string, retryCount: int, resync: bool)
    ensures var out := Retry(RoundFor(env, payload, resync), st, retryCount);
            out.result.Ok? ==> RepliesRead(env, st.script.controlReplies, out)
  {
    var round := RoundFor(env, payload, resync);
    if Retry(round, st, retryCount).result.Ok? {
      RoundForReads(env, payload, resync);
      assert ReadsOneReply(round, env);
      RetryReplies(round, env, st, retryCount);
      assert RepliesRead(env, st.script.controlReplies, Retry(round, st, retryCount));
    }
  }

  /** What every round that returns normally does: it extends the log, with one POST per control reply it read. */
  ghost predicate PostsPerReply(round: RoundFn)
  {
    forall s :: round(s).result.Ok? ==>
      Extends(s, round(s).state)
      && Posts(Added(s, round(s).state)) == |s.script.controlReplies| - |round(s).state.script.controlReplies|
  }

  /** One POST per control reply read: a normally returning retry run reads exactly one reply for each request it POSTs. */
  lemma {:induction false} RetryPostsPerReply(round: RoundFn, st: State, retryCount: int)
    requires PostsPerReply(round)
    requires Retry(round, st, retryCount).result.Ok?
    ensures var out := Retry(round, st, retryCount);
            Extends(st, out.state)
            && Posts(Added(st, out.state)) == |st.script.controlReplies| - |out.state.script.controlReplies|
    decreases Max0(retryCount)
  {
    var out := Retry(round, st, retryCount);
    var r := round(st);
    assert r.result.Ok?;
    if !r.result.value && retryCount > 0 {
      RetryPostsPerReply(round, r.state, retryCount - 1);
      AddedConcat(st, r.state, out.state);
      CountsConcat(Added(st, r.state), Added(r.state, out.state));
    }
  }

  lemma RoundForPostsPerReply(env: Env, payload: string, resync: bool)
    ensures PostsPerReply(RoundFor(env, payload, resync))
  {
    forall s | RoundFor(env, payload, resync)(s).result.Ok?
      ensures var r := RoundFor(env, payload, resync)(s);
              Extends(s, r.state)
              && Posts(Added(s, r.state)) == |s.script.controlReplies| - |r.state.script.controlReplies|
    {
      RoundSends(env, s, payload, resync);
    }
  }

  lemma RetryPostsReplies(env: Env, st: State, payload: string, retryCount: int, resync: bool)
    ensures var out := Retry(RoundFor(env, payload, resync), st, retryCount);
            out.result.Ok? ==>
              Posts(Added(st, out.state)) == |st.script.controlReplies| - |out.state.script.controlReplies|
  {
    var round := RoundFor(env, payload, resync);
    if Retry(round, st, retryCount).result.Ok? {
      RoundForPostsPerReply(env, payload, resync);
      RetryPostsPerReply(round, st, retryCount);
    }
  }

  /** The first `n` replies all failed to acknowledge. */
  predicate Unacknowledged(env: Env, replies: seq<seq<byte>>, n: nat)
    requires n <= |replies|
  {
    forall i :: 0 <= i < n ==> ReplyAcknowledged(env, replies[i]) == Ok(false)
  }

  lemma UnacknowledgedCons(env: Env, replies: seq<seq<byte>>, n: nat)
    requires replies != [] && n < |replies|
    requires ReplyAcknowledged(env, replies[0]) == Ok(false) && Unacknowledged(env, replies[1..], n)
    ensures Unacknowledged(env, replies, n + 1)
  {
    forall i | 0 <= i < n + 1 ensures ReplyAcknowledged(env, replies[i]) == Ok(false) {
      if i > 0 {
        assert replies[i] == replies[1..][i - 1];
      }
    }
  }

  /**
   A run that started with the control replies `rs` and ended in `out` read
   the first `used` of them: every one but the last unacknowledged, and the
   result is whether the last was acknowledged.
   */
  ghost predicate RepliesRead(env: Env, rs: seq<seq<byte>>, out: Step<bool>)
  {
    var used := |rs| - |out.state.script.controlReplies|;
    1 <= used <= |rs|
    && out.state.script.controlReplies == rs[used..]
    && Unacknowledged(env, rs, used - 1)
    && ReplyAcknowledged(env, rs[used - 1]) == out.result
  }

  /**
   Which replies a normally returning retry run read, given that each round
   reads one: the first replies of the script, every one but the last
   unacknowledged, and the result is whether the last was acknowledged.
   */
  lemma {:induction false} RetryReplies(round: RoundFn, env: Env, st: State, retryCount: int)
    requires ReadsOneReply(round, env)
    requires Retry(round, st, retryCount).result.Ok?
    ensures RepliesRead(env, st.script.controlReplies, Retry(round, st, retryCount))
    decreases Max0(retryCount)
  {
    var out := Retry(round, st, retryCount);
    var rs := st.script.controlReplies;
    var r := round(st);
    assert r.result.Ok?;
    if !r.result.value && retryCount > 0 {
      RetryReplies(round, env, r.state, retryCount - 1);
      RepliesReadCons(env, rs, out);
    }
  }

  /** An unacknowledged reply read before a run extends what the run read by one. */
  lemma RepliesReadCons(env: Env, rs: seq<seq<byte>>, out: Step<bool>)
    requires rs != [] && ReplyAcknowledged(env, rs[0]) == Ok(false)
    requires RepliesRead(env, rs[1..], out)
    ensures RepliesRead(env, rs, out)
  {
    var used' := |rs[1..]| - |out.state.script.controlReplies|;
    assert rs[1..][used'..] == rs[used' + 1..];
    UnacknowledgedCons(env, rs, used' - 1);
    assert rs[used'] == rs[1..][used' - 1];
  }

  /**
   A first reply that acknowledges ends the call at once: one POST, no sync,
   and the key advanced exactly once.
   */
  lemma FirstTrySuccess(env: Env, st: State, payload: string, retryCount: int, resync: bool)
    requires Bound(env) && NextKeyText(st.key).Ok?
    requires st.script.controlReplies != [] && ReplyAcknowledged(env, st.script.controlReplies[0]) == Ok(true)
    ensures var out := ControlSpec(env, st, payload, retryCount, resync);
            out.result == Ok(true)
            && |out.state.sent| == |st.sent| + 1 && out.state.sent[|st.sent|].ControlRequest?
            && out.state.key == Some(NextKeyText(st.key).value)
  {
    BoundOpens(env);
    AttemptPosts(env, st, payload);
    assert RoundFor(env, payload, resync)(st) == Attempt(env, st, payload);
  }

  /** `Unacknowledged`, reply by reply: the next `n` control replies each fail to acknowledge. */
  predicate Refusals(env: Env, replies: seq<seq<byte>>, n: nat)
    decreases n
  {
    n == 0 || (replies != [] && ReplyAcknowledged(env, replies[0]) == Ok(false) && Refusals(env, replies[1..], n - 1))
  }

  /** The next `n` syncs each have a nonce to send and a reply holding a key the client can advance. */
  predicate KeyReplies(nonces: seq<Nonce>, replies: seq<seq<byte>>, n: nat)
    decreases n
  {
    n == 0
    || (nonces != [] && replies != [] && NextKeyText(Utf8.Decode(replies[0])).Ok?
        && KeyReplies(nonces[1..], replies[1..], n - 1))
  }

  /** The quantified `Unacknowledged` gives the reply-by-reply `Refusals`. */
  lemma {:induction false} RefusalsOf(env: Env, replies: seq<seq<byte>>, n: nat)
    requires n <= |replies| && Unacknowledged(env, replies, n)
    ensures Refusals(env, replies, n)
    decreases n
  {
    if n > 0 {
      forall i | 0 <= i < n - 1 ensures ReplyAcknowledged(env, replies[1..][i]) == Ok(false) {
        assert replies[1..][i] == replies[i + 1];
      }
      RefusalsOf(env, replies[1..], n - 1);
    }
  }

  /** An attempt whose reply does not acknowledge: it consumes that reply and touches no other part of the script. */
  lemma AttemptRefused(env: Env, st: State, payload: string)
    requires Opens(env) && NextKeyText(st.key).Ok?
    requires st.script.controlReplies != [] && ReplyAcknowledged(env, st.script.controlReplies[0]) == Ok(false)
    ensures var a := Attempt(env, st, payload);
            a.result == Ok(false)
            && a.state.key == Some(NextKeyText(st.key).value)
            && a.state.script.controlReplies == st.script.controlReplies[1..]
            && a.state.script.nonces == st.script.nonces
            && a.state.script.syncReplies == st.script.syncReplies
  {
    AttemptPosts(env, st, payload);
  }

  /** A sync that gets a decodable reply takes it as the key and consumes one nonce and one sync reply. */
  lemma SyncAccepted(st: State)
    requires st.script.nonces != [] && st.script.syncReplies != [] && Utf8.Decode(st.script.syncReplies[0]).Some?
    ensures var sy := Sync(st);
            sy.result.Ok?
            && sy.state.key == Utf8.Decode(st.script.syncReplies[0])
            && sy.state.script.controlReplies == st.script.controlReplies
            && sy.state.script.nonces == st.script.nonces[1..]
            && sy.state.script.syncReplies == st.script.syncReplies[1..]
  {
  }

  /** A resyncing round after an unacknowledged reply and a successful sync ends where the sync left the client. */
  lemma RoundResyncs(env: Env, st: State, payload: string)
    requires Attempt(env, st, payload).result == Ok(false) && Sync(Attempt(env, st, payload).state).result.Ok?
    ensures RoundFor(env, payload, true)(st) == Step(Sync(Attempt(env, st, payload).state).state, Ok(false))
  {
  }

  /** A round without resync is the attempt alone. */
  lemma RoundPlain(env: Env, st: State, payload: string)
    ensures RoundFor(env, payload, false)(st) == Attempt(env, st, payload)
  {
  }

  /** A held key `int(_, 16)` reads as at least -1 and that can be advanced `n` times without passing `FFFFFFFF`. */
  predicate KeyRoom(key: Option<string>, n: nat)
  {
    key.Some? && PyIntHex(key.value).Some? && -1 <= PyIntHex(key.value).value && PyIntHex(key.value).value + n < KeyLimit
  }

  /** A key with room for `n + 1` advances can be advanced, leaving room for `n`. */
  lemma KeyRoomNext(key: Option<string>, n: nat)
    requires KeyRoom(key, n + 1)
    ensures NextKeyText(key).Ok? && KeyRoom(Some(NextKeyText(key).value), n)
  {
  }

  /**
   What lets `k` more rounds fail: the next `k` control replies refuse,
   and the keys can be advanced that often. With `resync` the held key
   is advanced once and the next `k` syncs hand out keys that can be;
   without it the held key has room for `k` advances.
   */
  predicate Fails(env: Env, resync: bool, s: State, k: nat)
  {
    Refusals(env, s.script.controlReplies, k)
    && if resync then NextKeyText(s.key).Ok? && KeyReplies(s.script.nonces, s.script.syncReplies, k)
       else KeyRoom(s.key, k)
  }

  /** A resyncing round that `Fails` allows refuses, syncs, and leaves one failing round fewer. */
  lemma ResyncRoundStep(env: Env, payload: string, s: State, k: nat)
    requires Opens(env) && k > 0 && Fails(env, true, s, k)
    ensures RoundFor(env, payload, true)(s).result == Ok(false)
    ensures Fails(env, true, RoundFor(env, payload, true)(s).state, k - 1)
  {
    AttemptRefused(env, s, payload);
    var a := Attempt(env, s, payload);
    SyncAccepted(a.state);
    RoundResyncs(env, s, payload);
  }

  /** A round without resync that `Fails` allows refuses, advances the key, and leaves one failing round fewer. */
  lemma PlainRoundStep(env: Env, payload: string, s: State, k: nat)
    requires Opens(env) && k > 0 && Fails(env, false, s, k)
    ensures RoundFor(env, payload, false)(s).result == Ok(false)
    ensures Fails(env, false, RoundFor(env, payload, false)(s).state, k - 1)
  {
    KeyRoomNext(s.key, k - 1);
    AttemptRefused(env, s, payload);
    RoundPlain(env, s, payload);
  }

  /** Every round allowed by `Fails` returns `Ok(false)` and leaves one round fewer allowed. */
  ghost predicate RoundsFail(round: RoundFn, env: Env, resync: bool)
  {
    forall s, k :: k > 0 && Fails(env, resync, s, k) ==>
      round(s).result == Ok(false) && Fails(env, resync, round(s).state, k - 1)
  }

  /** Once `Opens` holds, the rounds of `set_control_value` fail as `Fails` says. */
  lemma RoundForFails(env: Env, payload: string, resync: bool)
    requires Opens(env)
    ensures RoundsFail(RoundFor(env, payload, resync), env, resync)
  {
    forall s, k | k > 0 && Fails(env, resync, s, k)
      ensures RoundFor(env, payload, resync)(s).result == Ok(false)
              && Fails(env, resync, RoundFor(env, payload, resync)(s).state, k - 1)
    {
      if resync {
        ResyncRoundStep(env, payload, s, k);
      } else {
        PlainRoundStep(env, payload, s, k);
      }
    }
  }

  /** What must hold for `k` more failing rounds, as a function of the client state. */
  type FailsFor = (State, nat) -> bool

  /** Every round allowed by `fails` returns `Ok(false)` and leaves one round fewer allowed. */
  ghost predicate FailsStep(round: RoundFn, fails: FailsFor)
  {
    forall s, k :: k > 0 && fails(s, k) ==> round(s).result == Ok(false) && fails(round(s).state, k - 1)
  }

  /** `Fails` for one choice of `resync`, as a function. */
  function FailsOf(env: Env, resync: bool): FailsFor
  {
    (s: State, k: nat) => Fails(env, resync, s, k)
  }

  /** Applying `FailsOf` is `Fails`. */
  lemma FailsOfIs(env: Env, resync: bool, s: State, k: nat)
    ensures FailsOf(env, resync)(s, k) == Fails(env, resync, s, k)
  {
  }

  /** `RoundsFail`, restated for the generic `RetryAllFalse`. */
  lemma FailsStepOf(round: RoundFn, env: Env, resync: bool)
    requires RoundsFail(round, env, resync)
    ensures FailsStep(round, FailsOf(env, resync))
  {
    forall s, k | k > 0 && FailsOf(env, resync)(s, k)
      ensures round(s).result == Ok(false) && FailsOf(env, resync)(round(s).state, k - 1)
    {
      FailsOfIs(env, resync, s, k);
      FailsOfIs(env, resync, round(s).state, k - 1);
    }
  }

  /**
   A retry run whose rounds keep returning `Ok(false)` for as long as
   `fails` allows, started where `fails` allows all `retry_count + 1`
   rounds, returns `Ok(false)`.
   */
  lemma {:induction false} RetryAllFalse(round: RoundFn, fails: FailsFor, st: State, retryCount: int)
    requires FailsStep(round, fails) && fails(st, Max0(retryCount) + 1)
    ensures Retry(round, st, retryCount).result == Ok(false)
    decreases Max0(retryCount)
  {
    if retryCount > 0 {
      assert Max0(retryCount - 1) + 1 == Max0(retryCount);
      RetryAllFalse(round, fails, round(st).state, retryCount - 1);
    }
  }

  /**
   A call none of whose replies acknowledges uses up its retries and
   returns normally with `False`: `retry_count + 1` POSTs and, with
   `resync`, as many syncs. This holds while the device answers every
   request and the keys can be advanced that often: the ones the device
   hands out with `resync`, the held key without it.
   */
  lemma AllUnacknowledged(env: Env, st: State, payload: string, retryCount: int, resync: bool)
    requires Bound(env)
    requires Max0(retryCount) + 1 <= |st.script.controlReplies|
    requires Unacknowledged(env, st.script.controlReplies, Max0(retryCount) + 1)
    requires resync ==> NextKeyText(st.key).Ok? && KeyReplies(st.script.nonces, st.script.syncReplies, Max0(retryCount) + 1)
    requires !resync ==> KeyRoom(st.key, Max0(retryCount) + 1)
    ensures var out := ControlSpec(env, st, payload, retryCount, resync);
            out.result == Ok(false)
            && Posts(Added(st, out.state)) == Max0(retryCount) + 1
            && Syncs(Added(st, out.state)) == (if resync then Max0(retryCount) + 1 else 0)
  {
    BoundOpens(env);
    RefusalsOf(env, st.script.controlReplies, Max0(retryCount) + 1);
    RoundForFails(env, payload, resync);
    FailsStepOf(RoundFor(env, payload, resync), env, resync);
    FailsOfIs(env, resync, st, Max0(retryCount) + 1);
    RetryAllFalse(RoundFor(env, payload, resync), FailsOf(env, resync), st, retryCount);
  }

  /** The largest key: advancing it raises instead of wrapping round to 00000000. */
  lemma MaxKeyOverflows()
    ensures NextKeyText(Some("FFFFFFFF")) == Err(KeyOverflow)
  {
    MaxKeyValue();
    PyIntHexPlain("FFFFFFFF");
    Pow256Four();
  }

  lemma MaxKeyValue()
    ensures ParseHex("FFFFFFFF") == Some(0xFFFF_FFFF)
  {
    ParseHexUpper([255, 255, 255, 255]);
    assert BigEndian([255, 255, 255, 255]) == 0xFFFF_FFFF by {
      assert [255, 255, 255, 255][..3] == [255, 255, 255];
      assert [255, 255, 255][..2] == [255, 255];
      assert [255, 255][..1] == [255];
    }
    assert HexUpper([255, 255, 255, 255]) == "FFFFFFFF";
  }

  /** A key of minus one, `"-1"` or `"-01"` say, is accepted and advances to zero. */
  lemma MinusOneAdvances(digits: string)
    requires ParseHex(digits) == Some(1)
    ensures NextKeyText(Some("-" + digits)) == Ok("00000000")
  {
    PyIntHexMinusOne(digits);
    ZeroKeyText();
    Pow256Four();
  }

  lemma ZeroKeyText()
    ensures ToBytes(0, 4) == Some([0, 0, 0, 0]) && HexUpper([0, 0, 0, 0]) == "00000000"
  {
    ZeroBytes();
    ZeroHex();
  }

  lemma ZeroBytes()
    ensures BytesOf(0, 4) == [0, 0, 0, 0]
  {
    assert BytesOf(0, 1) == [0];
    assert BytesOf(0, 2) == [0, 0];
    assert BytesOf(0, 3) == [0, 0, 0];
  }

  lemma ZeroHex()
    ensures HexUpper([0, 0, 0, 0]) == "00000000"
  {
    var z: seq<byte> := [0, 0, 0, 0];
    assert HexUpper(z[3..]) == "00";
    assert HexUpper(z[2..]) == "0000";
    assert HexUpper(z[1..]) == "000000";
  }
}
