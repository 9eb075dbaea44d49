# Philips air purifier (CoAP) — a Dafny model

This project models the logic of the Home Assistant integration for Philips
air purifiers and humidifiers that speak encrypted CoAP. It has four parts.

- **The protocol client** (`coap_client.py`). This covers:
  - the rotating 8-hex-digit client key, which `_sync` sets and every encryption advances;
  - the wire envelope `key ++ HEX(AES-CBC(PKCS7(payload))) ++ HEX(SHA-256(key ++ ciphertext))`, with the digest checked before decryption;
  - the AES key and IV, taken from the upper-case MD5 hex of `"JiangPan" ++ key`;
  - `get_status` and `observe_status`;
  - the resync-and-retry recursion of `set_control_value`;
  - how `int(key, 16)` reads the held key, and how `json.loads` reads the reply bytes.
- **The fan entities of both integrations.** This covers:
  - status patterns (presets and speeds) and the first match against the device status;
  - the tables, attribute lists and services collected along the model class's method resolution order (MRO);
  - power, preset, percentage and speed commands, and what the device reports once it has applied them;
  - attribute projection, unique ids and icons.
- **The coordinator's listener bookkeeping.** Observing starts with the first listener and is cancelled with the last. There is at most one observer task.
- **The small entity mappers:** sensors and filter sensors, the water-level rule, selects, lights, switches, and the config flow's host check and step outcomes.

The modules follow the program.

| module | what it models |
|---|---|
| `Values` | Python status values, `str()` of a value, and the unique-id f-strings |
| `Hex`, `Utf8`, `Pkcs7`, `Codec` | the byte and text layer of the envelope, and `int(s, 16)` |
| `JsonBytes` | how `json.loads` picks the text encoding of a `bytes` argument |
| `Client` | the client session |
| `OrderedMap`, `Classes`, `Patterns` | insertion-ordered dicts, `getattr` along an MRO, status patterns and the commands a device applies |
| `PhilipsFan`, `CoapFan`, `LegacyFan` | the three fan bases |
| `Coordinator` | the coordinator |
| `Constants`, `Sensor`, `Select`, `Light`, `Switch`, `Setup`, `ConfigFlow` | the mappers |
| `Rounding` | Python's `round` and `int()` of a quotient |

The libraries the code calls become parameters:
- MD5, SHA-256 and AES-CBC are function fields of `Codec.Primitives`. Their one assumed law is that CBC decryption inverts encryption under the same key and IV.
- JSON `dumps`/`loads` are fields of `Client.Env`. So are the UTF-16 and UTF-32 decoders (`decodeWide`) that `json.loads` may pick for a reply.
- The network is a script of replies that the client consumes, plus a log of the requests it sent.

What a command does to the device is modelled by `Patterns.ApplyCommands`: a device that applies `set_control_value(k, v)` holds `v` at `k`, and one that applies `set_control_values(p)` holds every entry of `p`. The read-back properties of the entities (`is_on`, `preset_mode`, `speed`) are stated against it.

Paths in the table are relative to the repository root.

## Model

| member | source | states |
|---|---|---|
| Client.NextKeyText | custom_components/philips_airpurifier/aioairctrl/coap_client.py:68-73 | The next key is always 8 upper-case hex digits, and `int(_, 16)` reads it as the held key's value plus one. No key raises. A key `int(_, 16)` rejects raises. A successor outside `0 .. 2^32 - 1` raises. |
| Client.MaxKeyOverflows | custom_components/philips_airpurifier/aioairctrl/coap_client.py:69 | `FFFFFFFF` raises an overflow instead of wrapping round to `00000000`. |
| Client.MinusOneAdvances | custom_components/philips_airpurifier/aioairctrl/coap_client.py:69 | A held key of minus one, such as `"-1"` or `"-01"`, is accepted by `int(_, 16)` and advances to `00000000`. |
| Client.GetClientKeyNext | custom_components/philips_airpurifier/aioairctrl/coap_client.py:68-73 | `store=True` replaces the held key with the next key. `store=False` leaves the client unchanged. Nothing is sent. |
| Client.SetClientKey | custom_components/philips_airpurifier/aioairctrl/coap_client.py:64-66 | Only the held key changes. The requests sent and the replies pending are untouched. |
| Client.EncryptPayload | custom_components/philips_airpurifier/aioairctrl/coap_client.py:92-103 | Advances the held key exactly once and seals the payload under the new key. A key that cannot advance raises and changes nothing. |
| Client.EncryptedEnvelope | custom_components/philips_airpurifier/aioairctrl/coap_client.py:92-103 | The envelope starts with the advanced key and is longer than key plus digest. It decrypts back to the payload whatever key the client then holds. |
| Client.DecryptPayload | custom_components/philips_airpurifier/aioairctrl/coap_client.py:75-90 | Fails only with a decryption error, and exactly when the envelope does not open. The held key plays no part. |
| Client.Sync | custom_components/philips_airpurifier/aioairctrl/coap_client.py:105-117 | Sends one 8-digit upper-case hex nonce. On a reply, the held key becomes the reply's text verbatim. Without a reply it raises and keeps the key. Status and control replies are not consumed. |
| Client.SyncSetsKey | custom_components/philips_airpurifier/aioairctrl/coap_client.py:105-117 | What a sync returns, and the key it leaves, do not depend on the key held before. |
| Client.Reported | custom_components/philips_airpurifier/aioairctrl/coap_client.py:127-128 | The status is present exactly when the reply is an object whose `state` is an object holding `reported`. |
| Client.StatusOf | custom_components/philips_airpurifier/aioairctrl/coap_client.py:124-128 | A status reply yields a status exactly when it is UTF-8, decrypts, parses as JSON and holds `state.reported`. The status is that member. Bytes that are not UTF-8 raise a decode error. An envelope that does not open raises that decryption error. |
| Client.StatusOfSealed | custom_components/philips_airpurifier/aioairctrl/coap_client.py:124-138 | A reply that carries a sealed envelope, under any key of the right length, yields the `state.reported` of the sealed JSON text. Sealed text that is not JSON raises the JSON error. |
| Client.GetStatus | custom_components/philips_airpurifier/aioairctrl/coap_client.py:119-128 | Sends one GET and keeps the key. It consumes one status reply and returns that reply's decrypted `state.reported`. With no reply left it raises. |
| Client.ObserveStatus | custom_components/philips_airpurifier/aioairctrl/coap_client.py:130-138 | Yields the decrypted statuses in arrival order. It stops at the first reply that fails, with that reply's error, and yields every status when none fails. |
| Client.Desired | custom_components/philips_airpurifier/aioairctrl/coap_client.py:141-151 | The command dict has distinct keys and starts with `CommandType`, `DeviceId`, `EnduserId`. Looking up the control key gives the value to set, even when it names one of the fixed entries. |
| Client.ReplyAcknowledged | custom_components/philips_airpurifier/aioairctrl/coap_client.py:160-166 | The reply bytes are decoded in the encoding `json.loads` detects. The reply is read without error exactly when that text parses as a JSON object, and it acknowledges iff the object's `status` is `"success"`. Undecodable bytes raise a decode error. |
| Client.ReplyBomTransparent | custom_components/philips_airpurifier/aioairctrl/coap_client.py:162 | JSON text that opens with an ASCII character reads the same with or without a UTF-8 byte order mark. It is read without error iff it parses as an object, and acknowledges iff its `status` is `"success"`. |
| Client.Attempt | custom_components/philips_airpurifier/aioairctrl/coap_client.py:152-162 | One attempt advances the key and posts the payload sealed under the new key. It consumes one control reply and reports whether that reply acknowledged. Sync replies are untouched. |
| Client.AttemptPosts | custom_components/philips_airpurifier/aioairctrl/coap_client.py:152-162 | The envelope posted decrypts back to the payload, so the debug decryption at line 153 cannot fail. An attempt without a reply raises. |
| Client.Round | custom_components/philips_airpurifier/aioairctrl/coap_client.py:152-165 | A round that returns normally consumed exactly the next control reply and reports its acknowledgement. An acknowledged round did not resync. |
| Client.RoundSends | custom_components/philips_airpurifier/aioairctrl/coap_client.py:152-165 | A round appends one POST to the requests sent, plus one sync exactly when it resyncs after an unacknowledged reply. |
| Client.RoundForSends | custom_components/philips_airpurifier/aioairctrl/coap_client.py:152-165 | Every round of a `set_control_value` call sends as `RoundSends` states, from any state. |
| Client.RoundForReads | custom_components/philips_airpurifier/aioairctrl/coap_client.py:152-165 | Every round of a `set_control_value` call reads exactly one control reply, from any state. |
| Client.RetryCounts | custom_components/philips_airpurifier/aioairctrl/coap_client.py:163-168 | The retry recursion sends 1 to `retry_count + 1` POSTs, and all `retry_count + 1` unless one was acknowledged. With resync it sends one sync per unacknowledged reply, the last included; without resync it sends none. |
| Client.RetryReplies | custom_components/philips_airpurifier/aioairctrl/coap_client.py:160-168 | A run that returns normally reads a prefix of the control replies. All but the last failed to acknowledge, and the result is the last one's acknowledgement. |
| Client.RetrySends | custom_components/philips_airpurifier/aioairctrl/coap_client.py:140-168 | The counts of `RetryCounts` hold for the rounds `set_control_value` actually runs. |
| Client.RetryReads | custom_components/philips_airpurifier/aioairctrl/coap_client.py:140-168 | The replies of `RetryReplies` hold for the rounds `set_control_value` actually runs. |
| Client.ControlSpec | custom_components/philips_airpurifier/aioairctrl/coap_client.py:140-168 | `set_control_value` only appends requests. It sends 1 to `retry_count + 1` POSTs, all of them unless one is acknowledged. With resync it sends one sync per unacknowledged reply; without resync it sends none. It reads a prefix of the control replies, all unacknowledged but the last, and one POST goes out per control reply read. No control reply at all raises. |
| Client.FirstTrySuccess | custom_components/philips_airpurifier/aioairctrl/coap_client.py:152-168 | An acknowledging first reply means exactly one POST, no sync, the key advanced once and the result true. |
| Client.AllUnacknowledged | custom_components/philips_airpurifier/aioairctrl/coap_client.py:140-168 | A call none of whose replies acknowledges uses up every retry and returns normally with false: `retry_count + 1` POSTs and, with resync, as many syncs, and none without. This holds while the device answers every request and the keys can be advanced that often: the keys the syncs hand out with resync, the held key without it. |
| JsonBytes.Detect | custom_components/philips_airpurifier/aioairctrl/coap_client.py:162 | `json.loads` reads bytes as plain UTF-8 exactly when there is no byte order mark and, for two or at least four bytes, neither of the first two bytes is zero. It reads them as UTF-8 with signature exactly after the UTF-8 mark, and as BOM-ordered UTF-16 exactly after a UTF-16 mark that does not start a UTF-32 little-endian mark. |
| JsonBytes.Decode | custom_components/philips_airpurifier/aioairctrl/coap_client.py:162 | Text decoded as UTF-8, with or without signature, re-encodes to the bytes after the mark. The other encodings are the wide decoders' result. |
| JsonBytes.DecodeBom | custom_components/philips_airpurifier/aioairctrl/coap_client.py:162 | Any text behind a UTF-8 byte order mark is read back as that text. |
| JsonBytes.DecodePlain | custom_components/philips_airpurifier/aioairctrl/coap_client.py:162 | UTF-8 text whose first character is non-NUL ASCII and whose second is not NUL is detected as plain UTF-8 and read back as that text. |
| Codec.KeyAndIvText | custom_components/philips_airpurifier/aioairctrl/coap_client.py:27-56 | The key material is the 32-digit upper-case hex MD5 of the UTF-8 of `"JiangPan" ++ key`. |
| Codec.CreateCipher | custom_components/philips_airpurifier/aioairctrl/coap_client.py:52-62 | AES key and IV are 16 bytes each. Together they are the UTF-8 of the whole 32-digit digest text, split 16/16. |
| Codec.DigestText | custom_components/philips_airpurifier/aioairctrl/coap_client.py:101-102 | The trailing digest is 64 upper-case hex digits, the hex of SHA-256 over the UTF-8 of key and ciphertext text. |
| Codec.CiphertextText | custom_components/philips_airpurifier/aioairctrl/coap_client.py:96-99 | The ciphertext text is non-empty upper-case hex of whole AES blocks, 32 digits each. It is the hex of AES-CBC, under the key's cipher, of the padded UTF-8 payload. |
| Codec.Seal | custom_components/philips_airpurifier/aioairctrl/coap_client.py:92-103 | The envelope is the key, then upper-case hex ciphertext, then the digest of key and ciphertext. Everything after the key is upper-case hex. |
| Codec.SplitSeal | custom_components/philips_airpurifier/aioairctrl/coap_client.py:77-81 | The Python slices `[0:8]`, `[8:-64]`, `[-64:]` of a sealed envelope give back its key, ciphertext and digest. |
| Codec.EnvelopeFields | custom_components/philips_airpurifier/aioairctrl/coap_client.py:77-81 | With a non-empty middle slice, the three slices are consecutive and rebuild the envelope. |
| Codec.OpenSeal | custom_components/philips_airpurifier/aioairctrl/coap_client.py:77-99 | Decrypting a sealed envelope returns the payload. |
| Codec.OpenDigestFirst | custom_components/philips_airpurifier/aioairctrl/coap_client.py:83-86 | Decryption reports a digest mismatch exactly when the trailing 64 characters differ from the recomputed digest, before any decryption. |
| Codec.OpenAccepted | custom_components/philips_airpurifier/aioairctrl/coap_client.py:77-90 | Every envelope that decrypts has the sealed layout, key plus ciphertext plus their digest. |
| Codec.OpenCiphertextNonEmpty | custom_components/philips_airpurifier/aioairctrl/coap_client.py:77-90 | An envelope that decrypts has a matching digest and a non-empty ciphertext. |
| Codec.TamperedDigest | custom_components/philips_airpurifier/aioairctrl/coap_client.py:83-86 | Changing any digest character of a sealed envelope makes decryption report a digest mismatch. |
| Codec.TamperedKeyOrCiphertext | custom_components/philips_airpurifier/aioairctrl/coap_client.py:83-86 | Changing any key or ciphertext character changes the text the digest covers. Decryption then reports a digest mismatch unless SHA-256 collides on the two texts. |
| Codec.HexUpperInjective | custom_components/philips_airpurifier/aioairctrl/coap_client.py:99-101 | Distinct byte strings have distinct upper-case hex, so the text the digest covers determines the ciphertext bytes. |
| Pkcs7.Pad | custom_components/philips_airpurifier/aioairctrl/coap_client.py:96 | Padding keeps the data as a prefix and adds 1 to 16 bytes, each equal to the count added, reaching a multiple of 16. |
| Pkcs7.UnpadPad | custom_components/philips_airpurifier/aioairctrl/coap_client.py:89-96 | Unpadding inverts padding. |
| Pkcs7.PadUnpad | custom_components/philips_airpurifier/aioairctrl/coap_client.py:89 | Every input unpadding accepts is the padding of what it returns. |
| Hex.HexUpper | custom_components/philips_airpurifier/aioairctrl/coap_client.py:99 | Upper-case hex has two upper-case digits per byte. |
| Hex.UpperOfHexLower | custom_components/philips_airpurifier/aioairctrl/coap_client.py:99 | `bytes.hex().upper()` is the upper-case hex of the bytes. |
| Hex.FromHexUpper | custom_components/philips_airpurifier/aioairctrl/coap_client.py:88 | `bytes.fromhex` inverts upper-case hex. |
| Hex.HexUpperFromHex | custom_components/philips_airpurifier/aioairctrl/coap_client.py:88 | Every even-length upper-case hex text parses, and re-encodes to itself. |
| Hex.ParseHex | custom_components/philips_airpurifier/aioairctrl/coap_client.py:69 | The plain digit form `int(s, 16)` accepts: a value exactly for non-empty texts of hex digits, with nothing else around them. |
| Hex.Strip | custom_components/philips_airpurifier/aioairctrl/coap_client.py:69 | After the strip that `int(s, 16)` does, neither end is white space. Here white space means ASCII `\t\n\v\f\r`, the space, and the non-ASCII Unicode white space. |
| Hex.StripKeeps | custom_components/philips_airpurifier/aioairctrl/coap_client.py:69 | That strip removes white space only: every other character survives it. |
| Hex.PyIntHex | custom_components/philips_airpurifier/aioairctrl/coap_client.py:69 | Every text `int(s, 16)` accepts holds at least one hex digit. Its other characters are signs, `x`/`X`, underscores, or the white space `int` skips. U+001C..U+001F are not in that white space. |
| Hex.PyIntHexOf | custom_components/philips_airpurifier/aioairctrl/coap_client.py:69 | The digit part is what remains after removing the white space `int` skips, one sign and a `0x` prefix. When it is well formed, `int(s, 16)` is the value of its digits with the underscores dropped, negated after a `-`. |
| Hex.PyIntHexPlain | custom_components/philips_airpurifier/aioairctrl/coap_client.py:69 | On a plain run of hex digits `int(s, 16)` agrees with `ParseHex`. |
| Hex.PyIntHexSigned | custom_components/philips_airpurifier/aioairctrl/coap_client.py:69 | A leading `-` negates the value and a leading `+` keeps it. |
| Hex.PyIntHexPrefixed | custom_components/philips_airpurifier/aioairctrl/coap_client.py:69 | A `0x`, `0X`, `0x_` or `0X_` prefix is accepted and does not change the value. |
| Hex.PyIntHexPadded | custom_components/philips_airpurifier/aioairctrl/coap_client.py:69 | White space that `int` skips may surround the digits, and it does not change the value. That white space is ASCII `\t\n\v\f\r`, the space, and non-ASCII Unicode white space. |
| Hex.PyIntHexRejectsSeparator | custom_components/philips_airpurifier/aioairctrl/coap_client.py:69 | A text holding one of the ASCII separators U+001C..U+001F is rejected wherever the separator stands, even at either end. |
| Hex.PyIntHexMinusOne | custom_components/philips_airpurifier/aioairctrl/coap_client.py:69 | `int("-" + digits, 16)` is `-1` for any plain digit text of value one. |
| Hex.ToBytes | custom_components/philips_airpurifier/aioairctrl/coap_client.py:69 | `to_bytes(len, "big")` succeeds exactly for `0 <= n < 256^len`, giving `len` bytes whose big-endian value is `n`. |
| Hex.ParseHexUpper | custom_components/philips_airpurifier/aioairctrl/coap_client.py:69-71 | Parsing the upper-case hex of bytes gives their big-endian value. |
| Utf8.EncodeChar | custom_components/philips_airpurifier/aioairctrl/coap_client.py:96 | A character encodes to 1 to 4 bytes, and to one byte exactly when it is ASCII. |
| Utf8.EncodeAscii | custom_components/philips_airpurifier/aioairctrl/coap_client.py:53 | ASCII text encodes byte for byte. |
| Utf8.DecodeEncode | custom_components/philips_airpurifier/aioairctrl/coap_client.py:90-96 | Decoding the UTF-8 encoding of a string returns the string. |
| Utf8.EncodeDecode | custom_components/philips_airpurifier/aioairctrl/coap_client.py:115 | Strict decoding accepts only the exact encoding of the text it returns. |
| OrderedMap.Put | custom_components/philips_airpurifier_coap/philips.py:426-438 | Setting a key keeps the key order, appending a new key at the end. Reading the key back gives the value. |
| OrderedMap.PutGetOther | custom_components/philips_airpurifier_coap/philips.py:426-438 | Setting a key leaves every other key's value unchanged. |
| OrderedMap.UpdateKeys | custom_components/philips_airpurifier_coap/philips.py:312-314 | `dict.update` keeps the old keys in place and appends the new keys in their order. |
| OrderedMap.UpdateGet | custom_components/philips_airpurifier_coap/philips.py:312-314 | After `dict.update`, a key reads the other dict's value when the other dict has it, and the old value otherwise. |
| OrderedMap.MergeAllKeys | custom_components/philips_airpurifier_coap/philips.py:310-324 | Merging tables in order gives the keys in order of first appearance. |
| OrderedMap.MergeAllGet | custom_components/philips_airpurifier_coap/philips.py:310-324 | A key's merged value is its definition in the last table that defines it. |
| Classes.FirstDefiner | custom_components/philips_airpurifier_coap/philips.py:313 | Finds the first class along an MRO whose body defines the attribute. No earlier class defines it. |
| Classes.Getattr | custom_components/philips_airpurifier_coap/philips.py:313 | `getattr(cls, name, None)` finds a value exactly when some class on `cls`'s own MRO defines it. |
| Classes.GetattrOwn | custom_components/philips_airpurifier_coap/philips.py:313 | A class that defines the attribute gets its own value back. |
| Classes.GetattrVisited | custom_components/philips_airpurifier_coap/philips.py:312-313 | What `getattr` finds for a class was defined by that class or a base, so the reversed walk repeats a value it has already visited. |
| Classes.GetattrInstance | custom_components/philips_airpurifier_coap/philips.py:313 | For the model class, `getattr` finds the nearest defining class of its whole MRO. |
| Classes.Walk | custom_components/philips_airpurifier_coap/philips.py:312-313 | The reversed walk produces one value per MRO class, base first, using the default where `getattr` finds nothing. |
| Classes.CollectListMember | custom_components/philips_airpurifier_coap/philips.py:326-331 | An attribute is collected exactly when some class body lists it. Repetitions add duplicates but no new items. |
| Classes.CollectTable | custom_components/philips_airpurifier_coap/philips.py:310-316 | The collected preset or speed table never has a key twice. |
| Classes.CollectTableInstance | custom_components/philips_airpurifier_coap/philips.py:310-316 | Every key of the model class's own table, inherited or not, keeps the value that table gives it. |
| Classes.CollectTableKeys | custom_components/philips_airpurifier_coap/philips.py:318-324 | The collected names come in order of first appearance along the reversed MRO. |
| Patterns.FirstMatch | custom_components/philips_airpurifier_coap/philips.py:376-384 | Finds the first entry whose pattern the status matches, meaning every pattern entry equals the status value. It is none exactly when no pattern matches. |
| Patterns.Selected | custom_components/philips_airpurifier_coap/philips.py:376-384 | `preset_mode` names the first entry whose pattern the status matches, and is `None` exactly when no pattern matches. |
| Patterns.SelectedLoop | custom_components/philips_airpurifier_coap/philips.py:377-384 | The `for`/`break`/`else` scan returns the name of the first matching pattern, or `None`. |
| Patterns.SelectedDistinguished | custom_components/philips_airpurifier_coap/philips.py:376-384 | A status matching a pattern that every earlier pattern contradicts reads back as that pattern's name. |
| Patterns.ApplyPatternMatches | custom_components/philips_airpurifier_coap/philips.py:386-390 | A device that applied a pattern's entries then matches the pattern. |
| Patterns.ApplySetValue | custom_components/philips_airpurifier/aioairctrl/coap_client.py:140-151 | A device that applied one `set_control_value` holds the value at that key. |
| Patterns.SetOne | custom_components/philips_airpurifier/aioairctrl/coap_client.py:140-151 | After the device applies the command, the key reads the value sent and every other key is unchanged. |
| Patterns.SetPattern | custom_components/philips_airpurifier_coap/philips.py:386-390 | Setting a preset sends at most one multi-value command, and nothing for an unknown name. |
| Patterns.SetPatternSends | custom_components/philips_airpurifier_coap/philips.py:386-390 | A known name sends exactly the pattern of its first entry. |
| Patterns.SetPatternApplies | custom_components/philips_airpurifier_coap/philips.py:386-390 | An unknown name sends nothing. Once the device has applied what a known name sends, the status matches that name's pattern. |
| Patterns.SetThenSelect | custom_components/philips_airpurifier_coap/philips.py:376-390 | Setting a preset and applying it makes `preset_mode` report that preset, provided every earlier preset contradicts it. |
| Patterns.Present | custom_components/philips_airpurifier_coap/philips.py:427-432 | Without a value map the raw value is shown. A dict map replaces the values that are its keys and passes the others through. Testing a list or dict value against a dict map raises, since it is unhashable. |
| Patterns.Attributes | custom_components/philips_airpurifier_coap/philips.py:417-439 | The attribute dict, when it is built without raising, never has a key twice. |
| Patterns.AttributesRaise | custom_components/philips_airpurifier_coap/philips.py:427-439 | Building the attributes raises exactly when some entry whose Philips key is present has a value its dict map cannot hash. |
| Patterns.AttributesKeys | custom_components/philips_airpurifier_coap/philips.py:421-438 | When the attributes are built, an attribute is emitted exactly when some entry with that name has its Philips key in the status. |
| Patterns.AttributesKeysAll | custom_components/philips_airpurifier_coap/philips.py:421-438 | The same, for all attribute names at once. |
| Patterns.AttributesLast | custom_components/philips_airpurifier_coap/philips.py:421-438 | When the attributes are built, an emitted attribute shows the presented value of the last entry with that name whose Philips key is present. |
| PhilipsFan.Collect | custom_components/philips_airpurifier_coap/philips.py:284-331 | The collected preset and speed tables have distinct keys. The attribute list holds exactly the attributes some class lists. |
| PhilipsFan.UniqueId | custom_components/philips_airpurifier_coap/philips.py:303-308 | The `PhilipsEntity` constructor runs first, so a status without `DeviceId` raises its `KeyError` and the `PlatformNotReady` handler never fires. The id exists exactly when that constructor succeeds, and it is `model-` followed by `str()` of the `DeviceId`. |
| PhilipsFan.PresetMode | custom_components/philips_airpurifier_coap/philips.py:376-384 | Names the first preset whose pattern the status matches, and is `None` exactly when none matches. |
| PhilipsFan.SetPresetMode | custom_components/philips_airpurifier_coap/philips.py:386-390 | An unknown preset sends nothing. After the device applies a known preset, the status matches its pattern. |
| PhilipsFan.TurnOff | custom_components/philips_airpurifier_coap/philips.py:334-361 | After the device applies turn-off, `is_on` is false, unless the model's on and off values coincide. |
| PhilipsFan.SetPercentage | custom_components/philips_airpurifier_coap/philips.py:407-415 | Percentage 0 is exactly the power-off command. Any other percentage sends the pattern of the speed it maps to. |
| PhilipsFan.TurnOn | custom_components/philips_airpurifier_coap/philips.py:334-355 | A preset wins over a truthy percentage, which wins over the plain power-on command. After the device applies a plain power-on, `is_on` is true. |
| PhilipsFan.TurnOnNeverOff | custom_components/philips_airpurifier_coap/philips.py:340-355 | Turning on never sends the power-off command. A zero percentage is falsy and falls through to power-on. |
| PhilipsFan.Percentage | custom_components/philips_airpurifier_coap/philips.py:397-405 | There is a percentage exactly when some speed matches the status. It is then the helper's percentage, over the ordered speed list, of the first matching speed. |
| PhilipsFan.SetPercentageThenPercentage | custom_components/philips_airpurifier_coap/philips.py:397-415 | Take a non-zero percentage that maps to a known speed, with speed patterns that pairwise disagree. After the device applies what setting it sends, the fan reports the percentage of that speed. |
| PhilipsFan.ExtraStateAttributes | custom_components/philips_airpurifier_coap/philips.py:417-439 | Raises exactly when some present value cannot be hashed by its dict map. Otherwise an attribute is shown exactly when some entry with that name has its Philips key in the status. |
| PhilipsFan.Icon | custom_components/philips_airpurifier_coap/philips.py:441-453 | An off fan shows the power button. A running fan shows its preset's icon if it has one, and the fan-speed button otherwise. |
| PhilipsFan.IconShowsPower | custom_components/philips_airpurifier_coap/philips.py:441-453 | When no other icon is the power button's, the power button shows exactly when the fan is off. |
| CoapFan.UniqueId | custom_components/philips_airpurifier_coap/fan.py:242-247 | Raises `PlatformNotReady` exactly when the status has no `DeviceId`. Otherwise the id is `model-` followed by `str()` of the `DeviceId`. |
| CoapFan.TurnOn | custom_components/philips_airpurifier_coap/fan.py:265-278 | A truthy preset is set through its pattern. Otherwise, after the device applies the command, `is_on` is true. |
| CoapFan.TurnOff | custom_components/philips_airpurifier_coap/fan.py:265-282 | After the device applies turn-off, `is_on` is false. |
| CoapFan.PresetMode | custom_components/philips_airpurifier_coap/fan.py:292-298 | Names the first preset whose pattern the status matches, and is `None` exactly when none matches. |
| CoapFan.SetPresetMode | custom_components/philips_airpurifier_coap/fan.py:300-304 | An unknown preset sends nothing. After the device applies a known preset, the status matches its pattern. |
| CoapFan.DeviceStateAttributes | custom_components/philips_airpurifier_coap/fan.py:307-327 | Raises exactly when some present value cannot be hashed by its dict map. Otherwise an attribute is shown exactly when some entry with that name has its Philips key in the status. |
| CoapFan.SetFunction | custom_components/philips_airpurifier_coap/fan.py:450-454 | Sends one `func` command exactly for the two service values, and nothing for any other. Purification sends `P` and purification with humidification sends `PH`. |
| CoapFan.SetFunctionCodes | custom_components/philips_airpurifier_coap/fan.py:450-454 | The codes sent are exactly the function-map keys `P` and `PH`, one per service value. |
| CoapFan.RegisterServicesMembers | custom_components/philips_airpurifier_coap/fan.py:198-202 | The loop as written and the corrected walk register the same set of services. |
| CoapFan.RegisterServicesTwice | custom_components/philips_airpurifier_coap/fan.py:198-202 | As written, a model class that inherits `register_services` runs it twice. |
| CoapFan.RegisterServicesOnce | custom_components/philips_airpurifier_coap/fan.py:198-202 | The corrected walk runs each class's own method once. |
| LegacyFan.Init | custom_components/philips_airpurifier/fan.py:207-209 | Before the first update the fan is unavailable and `is_on` is `None`. |
| LegacyFan.UpdateStatus | custom_components/philips_airpurifier/fan.py:300-304 | An update makes the fan available, replaces the status wholesale, and sets `is_on` to `pwr == "1"`. |
| LegacyFan.ObserveLast | custom_components/philips_airpurifier/fan.py:296-304 | After a non-empty run of observed statuses, the fan is in the state one update with the last status gives a new fan. |
| LegacyFan.TurnOn | custom_components/philips_airpurifier/fan.py:314-323 | No speed turns the fan on once the device applies it. `SPEED_OFF` turns off. Any other speed is set through its pattern. |
| LegacyFan.TurnOff | custom_components/philips_airpurifier/fan.py:322-324 | Once the device applies turn-off and reports it, `is_on` is false. |
| LegacyFan.Speed | custom_components/philips_airpurifier/fan.py:334-340 | Names the first speed whose pattern the status matches, and is `None` exactly when none matches. |
| LegacyFan.SetSpeed | custom_components/philips_airpurifier/fan.py:342-346 | An unknown speed sends nothing. After the device applies a known speed, the status matches its pattern. |
| LegacyFan.DeviceStateAttributes | custom_components/philips_airpurifier/fan.py:348-368 | Raises exactly when some present value cannot be hashed by its dict map. Otherwise an attribute is shown exactly when some entry with that name has its Philips key in the status. |
| LegacyFan.SpeedOffFirst | custom_components/philips_airpurifier/fan.py:273-279 | When the base table starts with `SPEED_OFF` and no later table redefines it, the merged speeds start with `SPEED_OFF` mapped to its off pattern. |
| Coordinator.Init | custom_components/philips_airpurifier_coap/__init__.py:113-125 | A new coordinator has no status, and it satisfies the observer invariant: a task exists exactly when there are listeners, and only that task is live. |
| Coordinator.FirstRefresh | custom_components/philips_airpurifier_coap/__init__.py:127-131 | A failed first status raises `ConfigEntryNotReady`. Success stores the status, makes entities available, and changes nothing else. |
| Coordinator.StartObserving | custom_components/philips_airpurifier_coap/__init__.py:166-171 | Cancels the running task, if any, before spawning a new one. |
| Coordinator.StartObservingSingle | custom_components/philips_airpurifier_coap/__init__.py:166-171 | After starting, exactly one observer task is live. |
| Coordinator.AddListener | custom_components/philips_airpurifier_coap/__init__.py:133-148 | Appends the callback. Only the first listener starts observing; later ones leave the task alone. |
| Coordinator.RemoveFirst | custom_components/philips_airpurifier_coap/__init__.py:153 | `list.remove` deletes the first occurrence and keeps the rest in order. |
| Coordinator.RemoveListener | custom_components/philips_airpurifier_coap/__init__.py:150-157 | An unregistered callback raises. Removing the last listener cancels the task and clears it; otherwise the task is kept. |
| Coordinator.Deliver | custom_components/philips_airpurifier_coap/__init__.py:159-164 | An observed status replaces the held status and calls every listener in registration order. |
| Coordinator.ObserveRun | custom_components/philips_airpurifier_coap/__init__.py:159-164 | After a run of statuses the last one is held, and the listeners were called as one full round per status. |
| Coordinator.RepeatBlock | custom_components/philips_airpurifier_coap/__init__.py:162-164 | Each round of calls is the whole listener list, in registration order. |
| Coordinator.ObserveRunEffect | custom_components/philips_airpurifier_coap/__init__.py:159-164 | A run of `n` statuses makes `n` times as many calls as there are listeners, and the calls for each status are exactly the listener list in registration order. |
| Coordinator.Apply | custom_components/philips_airpurifier_coap/__init__.py:127-171 | Adding a listener appends it. Removing one removes one occurrence. An observed status replaces the held one. A refresh stores a status only when it succeeds. |
| Coordinator.ApplyInv | custom_components/philips_airpurifier_coap/__init__.py:133-171 | Every operation keeps the observer invariant: a task exists exactly when there are listeners, and the live tasks are exactly that one task. |
| Coordinator.ApplyAllInv | custom_components/philips_airpurifier_coap/__init__.py:133-171 | The single-observer invariant holds after any sequence of operations. |
| Coordinator.AddRemoveRoundTrip | custom_components/philips_airpurifier_coap/__init__.py:133-157 | Adding and then removing the only listener spawns one observer and cancels it, leaving no listener and no task. |
| ConfigFlow.SplitDots | custom_components/philips_airpurifier_coap/config_flow.py:32 | `str.split(".")` gives at least one label, and no label holds a dot. |
| ConfigFlow.SplitJoin | custom_components/philips_airpurifier_coap/config_flow.py:32 | Joining the labels with dots gives back the host. |
| ConfigFlow.JoinSplit | custom_components/philips_airpurifier_coap/config_flow.py:32 | Splitting a dot-join of dot-free labels gives back the labels. |
| ConfigFlow.FirstLabelEmpty | custom_components/philips_airpurifier_coap/config_flow.py:32 | The first label is empty exactly for the empty host and hosts starting with a dot. |
| ConfigFlow.LabelsOkShape | custom_components/philips_airpurifier_coap/config_flow.py:31-32 | The labels are all valid iff the host is non-empty and made of letters, digits, hyphens and single inner dots. |
| ConfigFlow.HostValid | custom_components/philips_airpurifier_coap/config_flow.py:24-32 | A host is valid iff it is an IP address or such a dotted name. So the empty host and hosts with leading, trailing or doubled dots are rejected. |
| ConfigFlow.Step | custom_components/philips_airpurifier_coap/config_flow.py:58-127 | No input shows the empty form, and input without a host raises. An entry is created exactly for a valid, reachable, supported and not yet configured device. Its title is `type + " " + name`, and it records the device id and the host. |
| ConfigFlow.InvalidHostNoConnect | custom_components/philips_airpurifier_coap/config_flow.py:64-127 | An invalid host re-shows the form with the `host` error, and what the device would answer plays no part. |
| ConfigFlow.ConnectFailure | custom_components/philips_airpurifier_coap/config_flow.py:73-117 | For a valid host, the form shows the `connect` error exactly when connecting or reading the status fails. |
| ConfigFlow.UnsupportedModelAborts | custom_components/philips_airpurifier_coap/config_flow.py:88-98 | A model type the integration does not know aborts with `model_unsupported`. |
| Constants.NoWaterCodes | custom_components/philips_airpurifier_coap/const.py:148-153 | The codes are exactly those the error-code map labels `no water`. |
| Constants.WaterLevelNoWater | custom_components/philips_airpurifier_coap/const.py:173-177 | A non-zero water level reads 0 exactly when the error code is a no-water code, and reads its raw value otherwise. |
| Sensor.SensorKinds | custom_components/philips_airpurifier_coap/sensor.py:68-70 | A sensor is created for exactly the sensor types present in the status. |
| Sensor.SensorKindsOrder | custom_components/philips_airpurifier_coap/sensor.py:68-70 | Sensors come in sensor-type order, and none is created twice. |
| Sensor.TableSensorKinds | custom_components/philips_airpurifier_coap/const.py:155-209 | For the `SENSOR_TYPES` table, at most eleven sensors are created and none twice. There is a water-level sensor exactly when the status reports `wl`, and a status that reports every key gets all eleven, in table order. |
| Sensor.SensorUniqueId | custom_components/philips_airpurifier_coap/sensor.py:93-98 | The `PhilipsEntity` constructor runs first, so a status without `DeviceId` raises its `KeyError` and `PlatformNotReady` is never raised. The id exists exactly when that constructor succeeds, and it is `model-DeviceId-kind` with the kind in lower case. |
| Sensor.SensorState | custom_components/philips_airpurifier_coap/sensor.py:102-108 | A missing key raises. Otherwise the state is the converted value when there is a converter, and the raw value when there is not. |
| Sensor.WaterLevelState | custom_components/philips_airpurifier_coap/sensor.py:102-108 | The water-level sensor reads 0 for a non-zero level exactly under a no-water error code. |
| Sensor.KeysOf | custom_components/philips_airpurifier_coap/sensor.py:124-129 | The value, total and type keys share the filter's prefix and postfix around the infix. |
| Sensor.KeysDistinct | custom_components/philips_airpurifier_coap/sensor.py:124-129 | Two of the three keys coincide exactly when their infixes do. |
| Sensor.FilterKinds | custom_components/philips_airpurifier_coap/sensor.py:72-74 | A filter sensor is created exactly for the filter types whose status key is present. |
| Sensor.FilterUniqueId | custom_components/philips_airpurifier_coap/sensor.py:138-143 | The `PhilipsEntity` constructor runs first, so a status without `DeviceId` raises its `KeyError` and `PlatformNotReady` is never raised. The id exists exactly when that constructor succeeds, and it is `model-DeviceId-kind` with the kind as given. |
| Sensor.UnitOf | custom_components/philips_airpurifier_coap/sensor.py:132-135 | The unit is percent exactly when the total key is in the status, and hours otherwise. |
| Sensor.TimeRemaining | custom_components/philips_airpurifier_coap/sensor.py:171-173 | Non-integers raise a type error. An integer whose day count `value // 24` is beyond ±999999999 raises an overflow. Otherwise the value is rendered as decimal text that parses back to it. |
| Sensor.PercentageOf | custom_components/philips_airpurifier_coap/sensor.py:167-169 | Non-integers raise a type error and a zero total raises a division error. Otherwise the result is `100 * value / total` rounded to the nearest integer. |
| Sensor.PercentageRange | custom_components/philips_airpurifier_coap/sensor.py:167-169 | A value between 0 and a positive total gives 0 to 100, and a full filter gives 100. |
| Sensor.FilterState | custom_components/philips_airpurifier_coap/sensor.py:146-151 | A missing value key raises. With the total present the state is the percentage, and otherwise the time remaining. |
| Sensor.FilterAttributes | custom_components/philips_airpurifier_coap/sensor.py:153-161 | Attributes set earlier are never removed. `type` is set when the type key is present, and the total when the total key is present. With the total present, a missing value key or a failing time-remaining raises; otherwise the time remaining is set. |
| Select.Build | custom_components/philips_airpurifier_coap/select.py:96-108 | The options are the option names in table order, and every icon key is a tuple. |
| Select.TupleIcons | custom_components/philips_airpurifier_coap/select.py:107 | The icon table is keyed only by `(name, icon)` tuples. |
| Select.BuildNames | custom_components/philips_airpurifier_coap/select.py:102-106 | The raw-value-to-name table maps each raw key to its option name. |
| Select.UniqueId | custom_components/philips_airpurifier_coap/select.py:110-115 | The `PhilipsEntity` constructor runs first, so a status without `DeviceId` raises its `KeyError` and `PlatformNotReady` is never raised. The id exists exactly when that constructor succeeds, and it is `model-DeviceId-kind` with the kind in lower case. |
| Select.CurrentOption | custom_components/philips_airpurifier_coap/select.py:120-125 | An unhashable status value raises. Otherwise the current option is none exactly when the value is not a raw key. |
| Select.FirstNamed | custom_components/philips_airpurifier_coap/select.py:130 | Finds the first raw key whose name is the option, or none when no name matches. |
| Select.SelectOption | custom_components/philips_airpurifier_coap/select.py:128-134 | An unknown option sends nothing. A known one sends one command with a raw key that carries that name. |
| Select.SelectCurrentOption | custom_components/philips_airpurifier_coap/select.py:120-134 | With distinct names, selecting the current option sends the current raw value back. |
| Select.CurrentOptionAt | custom_components/philips_airpurifier_coap/select.py:120-125 | A status holding an option's raw key shows that option's name. |
| Select.NamedOnce | custom_components/philips_airpurifier_coap/select.py:130 | With distinct names, an option's name leads back to its own raw key. |
| Select.IconAsWritten | custom_components/philips_airpurifier_coap/select.py:137-139 | As written, an unhashable status value raises, and otherwise the icon is always `None`, because no option name equals a tuple key. |
| Select.Icon | custom_components/philips_airpurifier_coap/select.py:101-139 | Corrected: an unhashable status value raises. Otherwise, with distinct option names, there is an icon exactly when the status value is a raw option key, and it is that option's icon. |
| Select.IconsByNameTable | custom_components/philips_airpurifier_coap/select.py:101-108 | The corrected icon table maps each option name to its icon. |
| Select.IconShowsOption | custom_components/philips_airpurifier_coap/select.py:137-139 | With the corrected table, the icon is the current option's icon. |
| Setup.SetupKinds | custom_components/philips_airpurifier_coap/select.py:53-72 | An entity is created for a type exactly when the model is supported and some class on its MRO lists that type. An unsupported model creates none. |
| Setup.ListedAll | custom_components/philips_airpurifier_coap/select.py:58-60 | The collected type list holds exactly the types some class on the MRO lists. |
| Setup.KeepDistinct | custom_components/philips_airpurifier_coap/switch.py:58-76 | Filtering a table of distinct types never creates an entity twice. |
| Light.ColorModeOf | custom_components/philips_airpurifier_coap/light.py:99-115 | The colour mode is brightness exactly for a dimmable light, and on/off when `dimmable` is missing. |
| Light.UniqueId | custom_components/philips_airpurifier_coap/light.py:117-122 | The `PhilipsEntity` constructor runs first, so a status without `DeviceId` raises its `KeyError` and `PlatformNotReady` is never raised. The id exists exactly when that constructor succeeds, and it is `model-DeviceId-kind` with the kind in lower case. |
| Light.IsOn | custom_components/philips_airpurifier_coap/light.py:127-132 | A dimmable light is on iff its integer level is positive, and a non-integer raises. A switched light is on iff the value is the on value. |
| Light.Brightness | custom_components/philips_airpurifier_coap/light.py:135-141 | A switched light has no brightness. A dimmable one has `255 * level / 100` rounded to the nearest integer. |
| Light.BrightnessRange | custom_components/philips_airpurifier_coap/light.py:139 | A level from 0 to 100 gives a brightness from 0 to 255. |
| Light.TurnOnAsWritten | custom_components/philips_airpurifier_coap/light.py:144-151 | As written, a dimmable light sends `int(100 * B / 255)`, truncated toward zero for any integer `B`, and raises without a brightness. A switched light sends its on value. |
| Light.TurnOnLevelRange | custom_components/philips_airpurifier_coap/light.py:144-151 | A brightness from 0 to 255 sends a level from 0 to 100. |
| Light.TurnOnAsWrittenLosesLevel | custom_components/philips_airpurifier_coap/light.py:135-151 | Level 99 reads as brightness 252, which as written is sent back as 98. |
| Light.TurnOn | custom_components/philips_airpurifier_coap/light.py:127-151 | The corrected turn-on sends the level nearest to `100 * B / 255`. A switched light sends its on value, and once the device applies it the light is on. |
| Light.TurnOff | custom_components/philips_airpurifier_coap/light.py:127-156 | After the device applies turn-off, `is_on` reads as it does for the off value alone. A switched light is then off unless its on and off values coincide. |
| Light.BrightnessRoundTrip | custom_components/philips_airpurifier_coap/light.py:135-151 | Turning a dimmable light on at its reported brightness sends back the level it holds. |
| Light.DimmedRoundTrip | custom_components/philips_airpurifier_coap/light.py:127-141 | After a level is applied, a dimmable light is on iff the level is positive and reports that level's brightness. |
| Switch.UniqueId | custom_components/philips_airpurifier_coap/switch.py:109-114 | The `PhilipsEntity` constructor runs first, so a status without `DeviceId` raises its `KeyError` and `PlatformNotReady` is never raised. The id exists exactly when that constructor succeeds, and it is `model-DeviceId-kind` with the kind in lower case. |
| Switch.TurnOn | custom_components/philips_airpurifier_coap/switch.py:120-127 | After the device applies turn-on, `is_on` is true, and no other status key changes. |
| Switch.TurnOff | custom_components/philips_airpurifier_coap/switch.py:120-131 | After the device applies turn-off, `is_on` is false exactly when the on and off values differ, and no other status key changes. |
| Values.PyStr | custom_components/philips_airpurifier_coap/fan.py:244 | An f-string shows a text value as it is, an integer in decimal, `None`, `True` and `False` by their Python names, and a list or dict in bracketed form. |
| Values.DeviceUniqueId | custom_components/philips_airpurifier_coap/fan.py:242-247 | Raises `PlatformNotReady` exactly when the status has no `DeviceId`. Otherwise the id is `model-`, then `str()` of the `DeviceId`, then the suffix if any. A text id appears verbatim. |
| Values.FirstTruthy | custom_components/philips_airpurifier_coap/philips.py:183-188 | `list(filter(None, map(status.get, [a, b])))[0]` is the value under `a` when that is truthy, and otherwise the value under `b` when that is truthy. When neither is truthy it raises `IndexError`. |
| Values.EntityInit | custom_components/philips_airpurifier_coap/philips.py:181-199 | The `PhilipsEntity` constructor reads `DeviceId`, a truthy name, a truthy model id and `WifiVersion`, in that order. A missing `DeviceId` or `WifiVersion` raises `KeyError`. A missing truthy name or model id raises `IndexError`. It never raises `PlatformNotReady`. On success it keeps the `DeviceId` and `WifiVersion` values and truthy name and model values read from their keys. |
| Values.EntityUniqueId | custom_components/philips_airpurifier_coap/philips.py:303-308 | The id of an entity built on `PhilipsEntity` exists exactly when the constructor succeeds. Otherwise it raises the constructor's error, and never `PlatformNotReady`. On success it equals the id the bare `try` computes. |
| Values.EntityIdHandlerDead | custom_components/philips_airpurifier_coap/philips.py:303-308 | For a status without `DeviceId`, an entity's id raises `KeyError`, while the same `try` over a constructor that reads nothing raises `PlatformNotReady`. |
| Values.DistinctSuffixes | custom_components/philips_airpurifier_coap/switch.py:109-114 | The entities of one device built with different suffixes, or with and without one, get different ids. |
| Values.AsciiLower | custom_components/philips_airpurifier_coap/switch.py:111 | The lowering keeps the length, maps each upper-case ASCII letter to lower case, and leaves every other character alone. On ASCII text it is `str.lower()`; the non-ASCII gap is listed under "## Left out". |
| Values.DecimalRoundTrip | custom_components/philips_airpurifier_coap/sensor.py:173 | `str` of an integer parses back to that integer. |
| Rounding.RoundHalfEven | custom_components/philips_airpurifier_coap/light.py:139 | Python's `round(n / d)` is within half of `n / d`, and an exact tie goes to the even neighbour. |
| Rounding.RoundHalfEvenBetween | custom_components/philips_airpurifier_coap/light.py:139 | Rounding a quotient between two integers stays between them. |
| Rounding.TruncDiv | custom_components/philips_airpurifier_coap/light.py:146 | `int(n / d)` truncates toward zero, for negative as well as non-negative `n`. |

## Left out

- MD5, SHA-256, AES-CBC and `os.urandom` are foreign library calls, so they are parameters. The only laws assumed of them (`Codec.Sound`) are that CBC decryption inverts encryption and that the outputs have their fixed lengths.
- aiocoap transport, the observe mechanics and the `Context` lifecycle are network I/O. A script of replies stands in for them. The nonce `_sync` sends is drawn from that script, not from `os.urandom`.
- `observe_status` is an async generator. It is modelled as a finite run of replies, each decrypted in turn.
- JSON `dumps`/`loads` are abstract function parameters. A status payload is parsed after a strict UTF-8 decode. A control reply is given to `json.loads` as bytes, and the encoding it detects is modelled.
- Client.ReplyAcknowledged: the UTF-16 and UTF-32 decoders are the parameter `Env.decodeWide`. The lone surrogates that the `surrogatepass` handler lets through cannot be Dafny characters, so a UTF-8 reply holding one is read as a decode error.
- Hex.PyIntHex: the non-ASCII Unicode decimal digits that `int(s, 16)` also accepts (for example Arabic-Indic digits) are not modelled, so a key written with them is read as not hex.
- Client.NextKeyText: inherits that gap from `Hex.PyIntHex`. A key written with non-ASCII decimal digits is reported as not hex, where Python would advance it.
- `timer.py`, `Coordinator.reconnect`/`_reconnect`/`shutdown` and the task scheduling itself are left out because their point is concurrency. Tasks appear only as spawn/cancel events in a log.
- The `Coordinator` in `philips.py` (lines 130-170) behaves like the one in `__init__.py`, so it is modelled once.
- `cli.py` and `example.py` are command-line and printing code.
- `model.py` and `philips_airpurifier/const.py` hold type aliases and constant tables only.
- Home Assistant plumbing is not modelled: entity base classes, service schemas, `hass.data`, names built with `title()`, `supported_features`, device classes and entity categories.
- The percentage helpers `ordered_list_item_to_percentage` and `percentage_to_ordered_list_item` and the icon names are not visible, so they are parameters.
- Floating point is stated exactly over integers. `round(x / y)` is round-half-even of the exact quotient and `int(x / y)` truncates it; a float error at large magnitudes is not modelled.
- Converters such as `str(timedelta(...))` are total functions supplied as parameters.
- Python's `True == 1` across types is not modelled, and neither is the matching dict hashing, so `Bool` and `Int` values are distinct.
- Values.PyStr: the bracketed rendering of lists and dicts is the parameter `containerStr`, because it depends on `repr` of every item.
- The regular expression `\d`, which also accepts non-ASCII decimal digits, is a parameter. So is `ipaddress.ip_address`. The host is taken as text.
- Values.AsciiLower: `str.lower()` is modelled on ASCII letters only. A non-ASCII capital such as `Ä` is left unchanged, where Python would lower it. So a kind holding one yields a different id than in the source.
- Values.EntityKeys: philips.py reads the name and model-id keys from `PhilipsApi`, which the shown `const.py` does not define. So the four keys are a parameter. `DeviceId` is `PHILIPS_DEVICE_ID` of `const.py` (line 103).
- ConfigFlow.Step: `config_flow.py` stores the device id under `CONF_DEVICE_ID`, which it imports from `const.py`. The shown `const.py` does not define it: it has only `ATTR_DEVICE_ID` (line 63) and `PHILIPS_DEVICE_ID` (line 103). So the data key is assumed to be `"device_id"`. `CONF_MODEL` is `"model"` (line 26), and `CONF_NAME` comes from Home Assistant as `"name"`.
- `FILTER_TYPES`, `SWITCH_TYPES`, `LIGHT_TYPES` and `SELECT_TYPES` are not in the shown constants, so they are parameters.
- Sensor.SensorKinds: takes the table's keys as the parameter `sensorTypes`, so the selection rule is stated for any table. `SENSOR_TYPES` itself is in `const.py` (lines 155-209), and its eleven keys, in order, are `Constants.SensorTypes`. `Sensor.TableSensorKinds` states the selection for that table. The converters of its entries are parameters of `Sensor.SensorState`, except the water-level rule, which is `Constants.WaterLevel`.
- `set_control_values` (several keys in one request) is represented only by the commands the entities issue and by what a device holds after applying them. Its envelope and retry path are the same as `set_control_value`'s, which is modelled.
- Client.ControlSpec: returns whether the last reply acknowledged, where the source returns `None`. The generic recursion `Client.Retry` carries no contract of its own; what it does for `set_control_value` is stated by `Client.ControlSpec`, and for any round by `Client.RetryCounts` and `Client.RetryReplies`.
- The exception `async_select_option` catches and logs for an unknown option is modelled as sending nothing.
- The filter sensor's unit is fixed from the status the entity was created with, as in the source, so later status changes are not tracked.
- The humidifier's `async_set_humidity_target` and other `register_services` bodies are service-schema plumbing. Only the order in which they run is modelled.
- The device itself is not modelled beyond `Patterns.ApplyCommands`. A device that acknowledges a command but does not apply it, or changes other keys, is outside the read-back properties.

## Findings

| source | as written | input that shows it | evidently intended | confidence | as-written member | corrected member |
|---|---|---|---|---|---|---|
| custom_components/philips_airpurifier_coap/fan.py:198-202 | `getattr(cls, "register_services", None)` resolves inherited methods, so a class without its own `register_services` runs its parent's again | `PhilipsAC1214`, which inherits `PhilipsGenericCoAPFan.register_services`, registers those services twice | run each class's own `register_services` once, base first | not executed | CoapFan.RegisterServicesTwice | CoapFan.RegisterServicesOnce |
| custom_components/philips_airpurifier_coap/select.py:137-139 | `_icons` is keyed by `(name, icon)` tuples (line 107) but looked up by the option name | any status; for example, a purifier mode whose raw value is an option key | the icon of the current option | not executed | Select.IconAsWritten | Select.IconShowsOption |
| custom_components/philips_airpurifier_coap/light.py:144-151 | turn-on sends `int(100 * B / 255)`, truncating, while `brightness` reports `round(255 * level / 100)` | level 99 reads as brightness 252, and turning on at 252 sends level 98 | turn-on at the reported brightness keeps the level | not executed | Light.TurnOnAsWrittenLosesLevel | Light.BrightnessRoundTrip |
| custom_components/philips_airpurifier_coap/philips.py:303-308 | the `try` turns a missing `DeviceId` into `PlatformNotReady`, but the `PhilipsEntity` constructor (lines 181-199) has already read `DeviceId`, a name, a model id and `WifiVersion` outside any handler; the sensors, selects, lights and switches have the same order | a status without `DeviceId` raises `KeyError` at line 181, so the handler never runs | a device that cannot be identified yet raises `PlatformNotReady`, so Home Assistant retries the setup | not executed | Values.EntityIdHandlerDead | Values.DeviceUniqueId |
